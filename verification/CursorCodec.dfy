/**
 * The opaque pagination cursor: base64url (section 5 of RFC 4648) over
 * "<timestamp in ISO form>|<uuid text>" (section 4 of RFC 9562).
 * A byte is a number below 256; a character of a cursor is an ASCII character.
 */
module CursorCodec {
  import opened Wrappers

  datatype CursorError = MalformedCursor

  /** A datetime; `offset` is the UTC offset in microseconds, absent for a naive one. */
  datatype Timestamp = Timestamp(
    year: nat, month: nat, day: nat, hour: nat, minute: nat, second: nat, micro: nat, offset: Option<int>)

  const UUID_LIMIT: nat := 0x1_0000_0000_0000_0000_0000_0000_0000_0000
  const SECOND_US := 1_000_000
  const MINUTE_US := 60_000_000
  const HOUR_US := 3_600_000_000
  const DAY_US := 86_400_000_000

  function DaysInMonth(year: nat, month: nat): nat {
    if month == 2 then if year % 4 == 0 && (year % 100 != 0 || year % 400 == 0) then 29 else 28
    else if month == 4 || month == 6 || month == 9 || month == 11 then 30 else 31
  }

  predicate ValidTimestamp(t: Timestamp) {
    && 1 <= t.year <= 9999 && 1 <= t.month <= 12 && 1 <= t.day <= DaysInMonth(t.year, t.month)
    && t.hour < 24 && t.minute < 60 && t.second < 60 && t.micro < 1_000_000
    && (t.offset.Some? ==> -DAY_US < t.offset.value < DAY_US)
  }

  // ----- digits in base 10 or 16 -----

  predicate Radix(base: nat) {
    base == 10 || base == 16
  }

  function Pow(base: nat, w: nat): nat {
    if w == 0 then 1 else base * Pow(base, w - 1)
  }

  function DigitChar(v: nat): char
    requires v < 16
  {
    if v < 10 then (v + '0' as int) as char else (v - 10 + 'a' as int) as char
  }

  function DigitValue(c: char, base: nat): Option<nat>
    requires Radix(base)
  {
    if '0' <= c <= '9' then Some(c as int - '0' as int)
    else if base == 16 && 'a' <= c <= 'f' then Some(c as int - 'a' as int + 10)
    else if base == 16 && 'A' <= c <= 'F' then Some(c as int - 'A' as int + 10)
    else None
  }

  /** The last `w` digits of `n`, zero-padded. */
  function Digits(n: nat, w: nat, base: nat): string
    requires Radix(base)
  {
    if w == 0 then "" else Digits(n / base, w - 1, base) + [DigitChar(n % base)]
  }

  function Number(s: string, base: nat): Option<nat>
    requires Radix(base)
    decreases |s|
  {
    if s == "" then Some(0)
    else match (Number(s[..|s| - 1], base), DigitValue(s[|s| - 1], base))
      case (Some(n), Some(v)) => Some(n * base + v)
      case _ => None
  }

  predicate HexDigit(c: char) {
    '0' <= c <= '9' || 'a' <= c <= 'f'
  }

  lemma DigitRoundTrip(v: nat, base: nat)
    requires Radix(base) && v < base
    ensures DigitValue(DigitChar(v), base) == Some(v) && HexDigit(DigitChar(v))
  {
  }

  lemma DivisionBasics(n: nat, base: nat, p: nat)
    requires Radix(base)
    ensures n / base * base + n % base == n && n % base < base
    ensures n < base * p ==> n / base < p
  {
    if base == 10 { assert n < 10 * p ==> n / 10 < p; } else { assert n < 16 * p ==> n / 16 < p; }
  }

  lemma {:induction false} DigitsRoundTrip(n: nat, w: nat, base: nat)
    requires Radix(base) && n < Pow(base, w)
    ensures |Digits(n, w, base)| == w
    ensures forall k | 0 <= k < w :: HexDigit(Digits(n, w, base)[k])
    ensures Number(Digits(n, w, base), base) == Some(n)
  {
    if w > 0 {
      DivisionBasics(n, base, Pow(base, w - 1));
      DigitsRoundTrip(n / base, w - 1, base);
      DigitRoundTrip(n % base, base);
      hide DigitChar, DigitValue, HexDigit, Pow;
      var s, front := Digits(n, w, base), Digits(n / base, w - 1, base);
      assert s == front + [DigitChar(n % base)];
      assert s[..|s| - 1] == front;
    }
  }

  // ----- runs of decimal fields, each with the text that ends it -----

  datatype Field = Field(width: nat, ending: string)

  const LIMITS: map<nat, nat> := map[2 := 100, 4 := 10000, 6 := 1_000_000]

  predicate Fits(value: nat, f: Field) {
    f.width in LIMITS && value < LIMITS[f.width] && Plain(f.ending)
  }

  predicate AllFit(values: seq<nat>, fields: seq<Field>) {
    |values| == |fields| && forall k | 0 <= k < |fields| :: Fits(values[k], fields[k])
  }

  function FormatFields(values: seq<nat>, fields: seq<Field>): string
    requires |values| == |fields|
  {
    if fields == [] then ""
    else Digits(values[0], fields[0].width, 10) + (fields[0].ending + FormatFields(values[1..], fields[1..]))
  }

  /** Reads the fields off the head of `s`; yields their values and what follows. */
  function ParseFields(s: string, fields: seq<Field>): (r: Option<(seq<nat>, string)>)
    ensures r.Some? ==> |r.value.0| == |fields|
    decreases |fields|
  {
    if fields == [] then Some(([], s))
    else
      var w, e := fields[0].width, fields[0].ending;
      if |s| < w + |e| || s[w..w + |e|] != e then None
      else match (Number(s[..w], 10), ParseFields(s[w + |e|..], fields[1..]))
        case (Some(n), Some((rest, after))) => Some(([n] + rest, after))
        case _ => None
  }

  lemma PowersOfTen()
    ensures Pow(10, 2) == 100 && Pow(10, 4) == 10000 && Pow(10, 6) == 1_000_000
  {
    assert Pow(10, 2) == 10 * Pow(10, 1);
    assert Pow(10, 4) == 10 * Pow(10, 3) && Pow(10, 3) == 10 * Pow(10, 2);
    assert Pow(10, 6) == 10 * Pow(10, 5) && Pow(10, 5) == 10 * Pow(10, 4);
  }

  lemma OneField(value: nat, f: Field)
    requires Fits(value, f)
    ensures |Digits(value, f.width, 10)| == f.width
    ensures Number(Digits(value, f.width, 10), 10) == Some(value)
    ensures Plain(Digits(value, f.width, 10))
  {
    PowersOfTen();
    DigitsRoundTrip(value, f.width, 10);
  }

  lemma PlainConcat(a: string, b: string)
    requires Plain(a) && Plain(b)
    ensures Plain(a + b)
  {
  }

  lemma SplitThree(a: string, e: string, r: string)
    ensures var s := a + (e + r);
      |s| == |a| + |e| + |r| && s[..|a|] == a && s[|a|..|a| + |e|] == e && s[|a| + |e|..] == r
  {
  }

  lemma ParseHead(d: string, n: nat, rest: string, fields: seq<Field>, values: seq<nat>, after: string)
    requires fields != [] && |d| == fields[0].width && Number(d, 10) == Some(n)
    requires ParseFields(rest, fields[1..]) == Some((values, after))
    ensures ParseFields(d + (fields[0].ending + rest), fields) == Some(([n] + values, after))
  {
    hide Number;
    SplitThree(d, fields[0].ending, rest);
  }

  lemma {:induction false} FieldsRoundTrip(values: seq<nat>, fields: seq<Field>, after: string)
    requires AllFit(values, fields)
    ensures ParseFields(FormatFields(values, fields) + after, fields) == Some((values, after))
    ensures Plain(FormatFields(values, fields))
    decreases |fields|
  {
    hide Digits, Number, Plain;
    if fields == [] {
      assert FormatFields(values, fields) + after == after;
      assert values == [];
      EmptyIsPlain();
    } else {
      var f, d, rest := fields[0], Digits(values[0], fields[0].width, 10), FormatFields(values[1..], fields[1..]);
      assert FormatFields(values, fields) == d + (f.ending + rest);
      hide *;
      OneField(values[0], f);
      TailFits(values, fields);
      FieldsRoundTrip(values[1..], fields[1..], after);
      PlainConcat(f.ending, rest);
      PlainConcat(d, f.ending + rest);
      ParseHead(d, values[0], rest + after, fields, values[1..], after);
      Regroup(d, f.ending, rest, after);
      HeadAndTail(values);
    }
  }

  lemma Regroup(a: string, b: string, c: string, d: string)
    ensures (a + (b + c)) + d == a + (b + (c + d))
  {
  }

  lemma HeadAndTail(values: seq<nat>)
    requires values != []
    ensures [values[0]] + values[1..] == values
  {
  }

  lemma TailFits(values: seq<nat>, fields: seq<Field>)
    requires AllFit(values, fields) && fields != []
    ensures Fits(values[0], fields[0]) && Plain(fields[0].ending)
    ensures AllFit(values[1..], fields[1..])
  {
    forall k | 0 <= k < |fields| - 1 ensures Fits(values[1..][k], fields[1..][k]) {
      assert Fits(values[k + 1], fields[k + 1]);
    }
  }

  lemma EmptyIsPlain()
    ensures Plain("")
  {
  }

  // ----- ISO timestamps -----

  predicate Plain(s: string) {
    forall k | 0 <= k < |s| :: s[k] != '|' && s[k] as int < 128
  }

  const HH_MM: seq<Field> := [Field(2, ":"), Field(2, "")]
  const SS: seq<Field> := [Field(2, "")]
  const US: seq<Field> := [Field(6, "")]
  const DATE_TIME: seq<Field> :=
    [Field(4, "-"), Field(2, "-"), Field(2, "T"), Field(2, ":"), Field(2, ":"), Field(2, "")]

  function Magnitude(off: int): nat {
    if off < 0 then -off else off
  }

  function IsoFraction(micro: nat): string {
    if micro == 0 then "" else "." + FormatFields([micro], US)
  }

  /** The ":ss" or ":ss.ffffff" tail of an offset of `a` microseconds; absent when it is whole minutes. */
  function IsoOffsetSeconds(a: nat): string {
    if a % MINUTE_US == 0 then "" else ":" + (FormatFields([a / SECOND_US % 60], SS) + IsoFraction(a % SECOND_US))
  }

  function IsoOffset(offset: Option<int>): string {
    match offset
    case None => ""
    case Some(off) =>
      var a := Magnitude(off);
      (if off < 0 then "-" else "+") + (FormatFields([a / HOUR_US, a / MINUTE_US % 60], HH_MM) + IsoOffsetSeconds(a))
  }

  function IsoFormat(t: Timestamp): string {
    FormatFields([t.year, t.month, t.day, t.hour, t.minute, t.second], DATE_TIME)
    + (IsoFraction(t.micro) + IsoOffset(t.offset))
  }

  /** An optional six-digit fraction at the head of `s`, and what follows it. */
  function ParseFraction(s: string): Option<(nat, string)> {
    if |s| == 0 || s[0] != '.' then Some((0, s))
    else match ParseFields(s[1..], US)
      case Some((values, after)) => Some((values[0], after))
      case None => None
  }

  function ParseOffsetSeconds(s: string): Option<nat> {
    if s == "" then Some(0)
    else if s[0] != ':' then None
    else match ParseFields(s[1..], SS)
      case None => None
      case Some((values, after)) =>
        match ParseFraction(after)
        case None => None
        case Some((us, rest)) =>
          if rest == "" && values[0] < 60 then Some(values[0] * SECOND_US + us) else None
  }

  function ParseOffset(s: string): Option<Option<int>> {
    if s == "" then Some(None)
    else if s[0] != '+' && s[0] != '-' then None
    else match ParseFields(s[1..], HH_MM)
      case None => None
      case Some((values, after)) =>
        match ParseOffsetSeconds(after)
        case None => None
        case Some(us) =>
          if values[0] >= 24 || values[1] >= 60 then None
          else
            var a := values[0] * HOUR_US + values[1] * MINUTE_US + us;
            Some(Some(if s[0] == '-' then -a else a))
  }

  function ParseIso(s: string): (r: Option<Timestamp>)
    ensures r.Some? ==> ValidTimestamp(r.value)
  {
    match ParseFields(s, DATE_TIME)
    case None => None
    case Some((v, after)) =>
      match ParseFraction(after)
      case None => None
      case Some((micro, rest)) =>
        match ParseOffset(rest)
        case None => None
        case Some(offset) =>
          var t := Timestamp(v[0], v[1], v[2], v[3], v[4], v[5], micro, offset);
          if ValidTimestamp(t) then Some(t) else None
  }

  lemma ReadFraction(digits: string, micro: nat, rest: string)
    requires ParseFields(digits + rest, US) == Some(([micro], rest))
    ensures ParseFraction("." + digits + rest) == Some((micro, rest))
  {
    hide ParseFields;
    assert ("." + digits + rest)[1..] == digits + rest;
  }

  lemma FractionRoundTrip(micro: nat, rest: string)
    requires micro < SECOND_US && (rest == "" || rest[0] != '.')
    ensures ParseFraction(IsoFraction(micro) + rest) == Some((micro, rest))
    ensures Plain(IsoFraction(micro))
    ensures IsoFraction(micro) == "" || IsoFraction(micro)[0] == '.'
  {
    if micro == 0 {
      assert IsoFraction(micro) + rest == rest;
    } else {
      assert Fits(micro, US[0]) && Plain(".");
      hide Digits, Number, FormatFields, ParseFields, ParseFraction, Plain;
      FieldsRoundTrip([micro], US, rest);
      PlainConcat(".", FormatFields([micro], US));
      ReadFraction(FormatFields([micro], US), micro, rest);
    }
  }

  lemma OffsetSplit(a: nat)
    requires a < DAY_US
    ensures a / HOUR_US < 24 && a / MINUTE_US % 60 < 60 && a / SECOND_US % 60 < 60
    ensures a == a / HOUR_US * HOUR_US + a / MINUTE_US % 60 * MINUTE_US + a % MINUTE_US
    ensures a % MINUTE_US == a / SECOND_US % 60 * SECOND_US + a % SECOND_US
  {
    assert a / MINUTE_US / 60 == a / HOUR_US;
    assert a / SECOND_US / 60 == a / MINUTE_US;
  }

  lemma ReadSeconds(body: string, sec: nat, fraction: string, us: nat)
    requires ParseFields(body, SS) == Some(([sec], fraction)) && sec < 60
    requires ParseFraction(fraction) == Some((us, ""))
    ensures ParseOffsetSeconds(":" + body) == Some(sec * SECOND_US + us)
  {
    assert (":" + body)[1..] == body;
  }

  lemma SecondsTail(sec: nat, us: nat)
    requires sec < 60 && us < SECOND_US
    ensures var tail := ":" + (FormatFields([sec], SS) + IsoFraction(us));
      ParseOffsetSeconds(tail) == Some(sec * SECOND_US + us) && Plain(tail)
  {
    hide ParseFields, ParseFraction, ParseOffsetSeconds, FormatFields, IsoFraction;
    var fraction, digits := IsoFraction(us), FormatFields([sec], SS);
    assert ParseFraction(fraction) == Some((us, "")) && Plain(fraction) by {
      FractionRoundTrip(us, "");
      assert fraction + "" == fraction;
    }
    assert ParseFields(digits + fraction, SS) == Some(([sec], fraction)) && Plain(digits) by {
      FieldsRoundTrip([sec], SS, fraction);
    }
    ReadSeconds(digits + fraction, sec, fraction, us);
    PlainConcat(digits, fraction);
    PlainConcat(":", digits + fraction);
  }

  lemma OffsetSecondsRoundTrip(a: nat)
    requires a < DAY_US
    ensures ParseOffsetSeconds(IsoOffsetSeconds(a)) == Some(a % MINUTE_US)
    ensures Plain(IsoOffsetSeconds(a))
  {
    if a % MINUTE_US != 0 {
      var sec, us := a / SECOND_US % 60, a % SECOND_US;
      assert sec < 60 && sec * SECOND_US + us == a % MINUTE_US by { OffsetSplit(a); }
      assert IsoOffsetSeconds(a) == ":" + (FormatFields([sec], SS) + IsoFraction(us));
      hide FormatFields, IsoFraction, ParseOffsetSeconds, IsoOffsetSeconds;
      SecondsTail(sec, us);
    }
  }

  lemma OffsetText(sign: char, h: nat, m: nat, us: nat, tail: string)
    requires sign == '+' || sign == '-'
    requires h < 24 && m < 60 && Plain(tail) && ParseOffsetSeconds(tail) == Some(us)
    ensures var a := h * HOUR_US + m * MINUTE_US + us;
      ParseOffset([sign] + (FormatFields([h, m], HH_MM) + tail)) == Some(Some(if sign == '-' then -a else a))
    ensures Plain([sign] + (FormatFields([h, m], HH_MM) + tail))
  {
    hide ParseOffsetSeconds, FormatFields, ParseFields;
    var body := FormatFields([h, m], HH_MM) + tail;
    FieldsRoundTrip([h, m], HH_MM, tail);
    PlainConcat(FormatFields([h, m], HH_MM), tail);
    PlainConcat([sign], body);
    assert ([sign] + body)[1..] == body;
  }

  lemma OffsetRoundTrip(offset: Option<int>)
    requires offset.Some? ==> -DAY_US < offset.value < DAY_US
    ensures ParseOffset(IsoOffset(offset)) == Some(offset)
    ensures IsoOffset(offset) == "" || IsoOffset(offset)[0] != '.'
    ensures Plain(IsoOffset(offset))
  {
    if offset.Some? {
      var a := Magnitude(offset.value);
      var tail := IsoOffsetSeconds(a);
      assert ParseOffsetSeconds(tail) == Some(a % MINUTE_US) && Plain(tail) by { OffsetSecondsRoundTrip(a); }
      NonzeroOffset(offset.value, a, tail);
    }
  }

  lemma NonzeroOffset(off: int, a: nat, tail: string)
    requires a == Magnitude(off) < DAY_US && tail == IsoOffsetSeconds(a)
    requires ParseOffsetSeconds(tail) == Some(a % MINUTE_US) && Plain(tail)
    ensures ParseOffset(IsoOffset(Some(off))) == Some(Some(off))
    ensures IsoOffset(Some(off)) != "" && IsoOffset(Some(off))[0] != '.'
    ensures Plain(IsoOffset(Some(off)))
  {
    hide ParseOffset, ParseOffsetSeconds, FormatFields, Plain, IsoOffsetSeconds;
    var h, m, us := a / HOUR_US, a / MINUTE_US % 60, a % MINUTE_US;
    assert h < 24 && m < 60 && h * HOUR_US + m * MINUTE_US + us == a by { OffsetSplit(a); }
    OffsetText(if off < 0 then '-' else '+', h, m, us, tail);
  }

  /** Every valid timestamp, naive or with any microsecond offset below a day, survives its ISO form. */
  lemma IsoRoundTrip(t: Timestamp)
    requires ValidTimestamp(t)
    ensures ParseIso(IsoFormat(t)) == Some(t)
    ensures Plain(IsoFormat(t))
  {
    hide FormatFields, ParseFields, ParseFraction, ParseOffset, IsoFraction, IsoOffset;
    var values := [t.year, t.month, t.day, t.hour, t.minute, t.second];
    OffsetRoundTrip(t.offset);
    FractionRoundTrip(t.micro, IsoOffset(t.offset));
    var tail := IsoFraction(t.micro) + IsoOffset(t.offset);
    FieldsRoundTrip(values, DATE_TIME, tail);
    PlainConcat(IsoFraction(t.micro), IsoOffset(t.offset));
    PlainConcat(FormatFields(values, DATE_TIME), tail);
  }

  // ----- UUID text -----

  function UuidText(id: nat): string {
    var h := Digits(id, 32, 16);
    if |h| == 32 then Hyphenated([h[0..8], h[8..12], h[12..16], h[16..20], h[20..32]]) else ""
  }

  function Hyphenated(parts: seq<string>): string {
    if parts == [] then ""
    else if |parts| == 1 then parts[0]
    else parts[0] + ("-" + Hyphenated(parts[1..]))
  }

  function Joined(parts: seq<string>): string {
    if parts == [] then "" else parts[0] + Joined(parts[1..])
  }

  function WithoutHyphens(s: string): string {
    if s == "" then "" else (if s[0] == '-' then "" else [s[0]]) + WithoutHyphens(s[1..])
  }

  function StripBraces(s: string): string
    decreases |s|
  {
    if s == "" then ""
    else if s[0] == '{' || s[0] == '}' then StripBraces(s[1..])
    else if s[|s| - 1] == '{' || s[|s| - 1] == '}' then StripBraces(s[..|s| - 1])
    else s
  }

  function ParseUuid(s: string): (r: Option<nat>)
  {
    var h := WithoutHyphens(StripBraces(s));
    if |h| != 32 then None else Number(h, 16)
  }

  lemma {:induction false} HyphenConcat(a: string, b: string)
    ensures WithoutHyphens(a + b) == WithoutHyphens(a) + WithoutHyphens(b)
  {
    if a == "" {
      assert a + b == b;
    } else {
      assert (a + b)[1..] == a[1..] + b;
      HyphenConcat(a[1..], b);
    }
  }

  lemma {:induction false} HexHasNoHyphen(a: string)
    requires forall k | 0 <= k < |a| :: HexDigit(a[k])
    ensures WithoutHyphens(a) == a
  {
    if a != "" {
      HexHasNoHyphen(a[1..]);
      assert [a[0]] + a[1..] == a;
    }
  }

  predicate IsHex(s: string) {
    forall k | 0 <= k < |s| :: HexDigit(s[k])
  }

  lemma HyphenBefore(s: string)
    requires Plain(s)
    ensures WithoutHyphens("-" + s) == WithoutHyphens(s) && Plain("-" + s)
  {
    assert ("-" + s)[1..] == s;
  }

  lemma NothingIsPlain(s: string)
    requires s == ""
    ensures WithoutHyphens(s) == s && Plain(s)
  {
  }

  lemma HexIsPlain(s: string)
    requires IsHex(s)
    ensures Plain(s)
  {
  }

  lemma {:induction false} HyphensUndone(parts: seq<string>)
    requires forall p | p in parts :: IsHex(p)
    ensures WithoutHyphens(Hyphenated(parts)) == Joined(parts)
    ensures Plain(Hyphenated(parts))
  {
    hide WithoutHyphens, Plain, HexDigit;
    if parts == [] {
      NothingIsPlain("");
    } else {
      var first := parts[0];
      assert IsHex(first);
      HexHasNoHyphen(first);
      HexIsPlain(first);
      if |parts| == 1 {
        assert Joined(parts) == first;
      } else {
        var rest := Hyphenated(parts[1..]);
        hide IsHex;
        HyphensUndone(parts[1..]);
        HyphenBefore(rest);
        HyphenConcat(first, "-" + rest);
        PlainConcat(first, "-" + rest);
      }
    }
  }

  lemma PowOfHex(w: nat)
    requires w == 32
    ensures Pow(16, w) == UUID_LIMIT
  {
    assert Pow(16, 4) == 16 * Pow(16, 3) == 0x1_0000 by { assert Pow(16, 3) == 16 * Pow(16, 2) == 16 * 16 * 16; }
    assert Pow(16, 8) == 0x1_0000_0000 by { assert Pow(16, 6) == 0x100_0000 by { assert Pow(16, 5) == 16 * Pow(16, 4); } assert Pow(16, 7) == 16 * Pow(16, 6); }
    PowSplit(8, 8);
    PowSplit(16, 16);
  }

  lemma {:induction false} PowSplit(a: nat, b: nat)
    ensures Pow(16, a + b) == Pow(16, a) * Pow(16, b)
    decreases a
  {
    if a > 0 {
      PowSplit(a - 1, b);
      assert Pow(16, a + b) == 16 * Pow(16, a - 1 + b);
      assert 16 * (Pow(16, a - 1) * Pow(16, b)) == (16 * Pow(16, a - 1)) * Pow(16, b);
    }
  }

  lemma {:induction false} HyphenatedEnds(parts: seq<string>)
    requires parts != [] && forall p | p in parts :: IsHex(p) && p != ""
    ensures var s := Hyphenated(parts); s != "" && HexDigit(s[0]) && HexDigit(s[|s| - 1])
  {
    var first, s := parts[0], Hyphenated(parts);
    assert first in parts;
    if |parts| > 1 {
      var rest := Hyphenated(parts[1..]);
      HyphenatedEnds(parts[1..]);
      assert s[0] == first[0] && s[|s| - 1] == rest[|rest| - 1];
    }
  }

  lemma NoBracesToStrip(s: string)
    requires s != "" && HexDigit(s[0]) && HexDigit(s[|s| - 1])
    ensures StripBraces(s) == s
  {
  }

  lemma PartsOfHex(h: string)
    requires |h| == 32 && IsHex(h)
    ensures var parts := [h[0..8], h[8..12], h[12..16], h[16..20], h[20..32]];
      Joined(parts) == h && forall p | p in parts :: IsHex(p) && p != ""
  {
    var a, b, c, d, e := h[0..8], h[8..12], h[12..16], h[16..20], h[20..32];
    JoinFive(a, b, c, d, e);
    assert a + b + c + d + e == h;
  }

  lemma JoinFive(a: string, b: string, c: string, d: string, e: string)
    ensures Joined([a, b, c, d, e]) == a + b + c + d + e
  {
    assert [a, b, c, d, e][1..] == [b, c, d, e] && [b, c, d, e][1..] == [c, d, e];
    assert [c, d, e][1..] == [d, e] && [d, e][1..] == [e] && [e][1..] == [];
    assert Joined([e]) == e;
    assert Joined([d, e]) == d + e;
    assert Joined([c, d, e]) == c + (d + e);
    assert Joined([b, c, d, e]) == b + (c + (d + e));
  }

  lemma HexOfUuid(id: nat)
    requires id < UUID_LIMIT
    ensures |Digits(id, 32, 16)| == 32 && IsHex(Digits(id, 32, 16)) && Number(Digits(id, 32, 16), 16) == Some(id)
  {
    PowOfHex(32);
    hide Pow, Digits, Number;
    DigitsRoundTrip(id, 32, 16);
  }

  lemma UuidRoundTrip(id: nat)
    requires id < UUID_LIMIT
    ensures ParseUuid(UuidText(id)) == Some(id)
    ensures Plain(UuidText(id))
  {
    hide Digits, Number, Joined, Hyphenated, WithoutHyphens, StripBraces;
    var h := Digits(id, 32, 16);
    HexOfUuid(id);
    PartsOfHex(h);
    var parts := [h[0..8], h[8..12], h[12..16], h[16..20], h[20..32]];
    HyphensUndone(parts);
    HyphenatedEnds(parts);
    NoBracesToStrip(Hyphenated(parts));
  }

  // ----- base64url -----

  predicate Bytes(b: seq<nat>) {
    forall k | 0 <= k < |b| :: b[k] < 256
  }

  function Sextet(v: nat): char
    requires v < 64
  {
    if v < 26 then (v + 'A' as int) as char
    else if v < 52 then (v - 26 + 'a' as int) as char
    else if v < 62 then (v - 52 + '0' as int) as char
    else if v == 62 then '-' else '_'
  }

  /** The url-safe table on top of the standard one, whose '+' and '/' it still accepts. */
  function SextetValue(c: char): (r: Option<nat>)
    ensures r.Some? ==> r.value < 64
  {
    if 'A' <= c <= 'Z' then Some(c as int - 'A' as int)
    else if 'a' <= c <= 'z' then Some(c as int - 'a' as int + 26)
    else if '0' <= c <= '9' then Some(c as int - '0' as int + 52)
    else if c == '-' || c == '+' then Some(62)
    else if c == '_' || c == '/' then Some(63)
    else None
  }

  function Base64Encode(b: seq<nat>): string
    requires Bytes(b)
    decreases |b|
  {
    if |b| == 0 then ""
    else if |b| == 1 then [Sextet(b[0] / 4), Sextet(b[0] % 4 * 16), '=', '=']
    else if |b| == 2 then [Sextet(b[0] / 4), Sextet(b[0] % 4 * 16 + b[1] / 16), Sextet(b[1] % 16 * 4), '=']
    else
      [Sextet(b[0] / 4), Sextet(b[0] % 4 * 16 + b[1] / 16), Sextet(b[1] % 16 * 4 + b[2] / 64), Sextet(b[2] % 64)]
      + Base64Encode(b[3..])
  }

  /**
   * The lenient decoder: characters outside the alphabet are skipped, padding ends the
   * input once the quantum has room for it, and leftover sextets are an error.
   */
  function Base64Decode(s: string, quad: nat, left: nat, pads: nat): (r: Option<seq<nat>>)
    requires quad < 4 && left < 64
    requires (quad == 2 ==> left < 16) && (quad == 3 ==> left < 4)
    ensures r.Some? ==> Bytes(r.value)
    decreases |s|
  {
    if s == "" then if quad != 0 then None else Some([])
    else if s[0] == '=' then
      if quad >= 2 && quad + pads + 1 >= 4 then Some([])
      else Base64Decode(s[1..], quad, left, if quad >= 2 then pads + 1 else pads)
    else match SextetValue(s[0])
      case None => Base64Decode(s[1..], quad, left, pads)
      case Some(v) =>
        if quad == 0 then Base64Decode(s[1..], 1, v, 0)
        else if quad == 1 then Prepend(left * 4 + v / 16, Base64Decode(s[1..], 2, v % 16, 0))
        else if quad == 2 then Prepend(left * 16 + v / 4, Base64Decode(s[1..], 3, v % 4, 0))
        else Prepend(left % 4 * 64 + v, Base64Decode(s[1..], 0, 0, 0))
  }

  function Prepend(b: nat, rest: Option<seq<nat>>): Option<seq<nat>> {
    match rest
    case None => None
    case Some(bs) => Some([b] + bs)
  }

  lemma SextetRoundTrip(v: nat)
    requires v < 64
    ensures SextetValue(Sextet(v)) == Some(v) && Sextet(v) != '='
  {
  }

  lemma DecodeOne(c: char, rest: string, quad: nat, left: nat)
    requires quad < 4 && left < 64 && (quad == 2 ==> left < 16) && (quad == 3 ==> left < 4)
    requires SextetValue(c).Some? && c != '='
    ensures var v := SextetValue(c).value;
      Base64Decode([c] + rest, quad, left, 0) ==
        if quad == 0 then Base64Decode(rest, 1, v, 0)
        else if quad == 1 then Prepend(left * 4 + v / 16, Base64Decode(rest, 2, v % 16, 0))
        else if quad == 2 then Prepend(left * 16 + v / 4, Base64Decode(rest, 3, v % 4, 0))
        else Prepend(left % 4 * 64 + v, Base64Decode(rest, 0, 0, 0))
  {
    assert ([c] + rest)[1..] == rest;
  }

  lemma {:induction false} Base64RoundTrip(b: seq<nat>)
    requires Bytes(b)
    ensures Base64Decode(Base64Encode(b), 0, 0, 0) == Some(b)
    decreases |b|
  {
    hide *;
    EncodeStep(b);
    if b == [] {
      NothingDecodes(Base64Encode(b));
    } else if |b| == 1 {
      OneByte(b[0]);
      assert b == [b[0]];
    } else if |b| == 2 {
      TwoBytes(b[0], b[1]);
      assert b == [b[0], b[1]];
    } else {
      ThreeBytes(b[0], b[1], b[2], Base64Encode(b[3..]));
      Base64RoundTrip(b[3..]);
      PrependThree(b[0], b[1], b[2], b[3..]);
      assert b == [b[0]] + ([b[1]] + ([b[2]] + b[3..]));
    }
  }

  lemma EncodeStep(b: seq<nat>)
    requires Bytes(b)
    ensures forall k | 0 <= k < |b| :: b[k] < 256
    ensures b == [] ==> Base64Encode(b) == ""
    ensures |b| == 1 ==> Base64Encode(b) == [Sextet(b[0] / 4), Sextet(b[0] % 4 * 16), '=', '=']
    ensures |b| == 2 ==> Base64Encode(b) == [Sextet(b[0] / 4), Sextet(b[0] % 4 * 16 + b[1] / 16), Sextet(b[1] % 16 * 4), '=']
    ensures |b| >= 3 ==> Bytes(b[3..])
    ensures |b| >= 3 ==>
      Base64Encode(b)
      == [Sextet(b[0] / 4), Sextet(b[0] % 4 * 16 + b[1] / 16), Sextet(b[1] % 16 * 4 + b[2] / 64), Sextet(b[2] % 64)] + Base64Encode(b[3..])
  {
    hide Sextet;
  }

  lemma NothingDecodes(s: string)
    requires s == ""
    ensures Base64Decode(s, 0, 0, 0) == Some([])
  {
  }

  lemma PrependThree(a: nat, b: nat, c: nat, rest: seq<nat>)
    ensures Prepend(a, Prepend(b, Prepend(c, Some(rest)))) == Some([a] + ([b] + ([c] + rest)))
  {
  }

  lemma OneByte(a: nat)
    requires a < 256
    ensures Base64Decode([Sextet(a / 4), Sextet(a % 4 * 16), '=', '='], 0, 0, 0) == Some([a])
  {
    var x, y := a / 4, a % 4 * 16;
    SextetRoundTrip(x);
    SextetRoundTrip(y);
    assert [Sextet(x), Sextet(y), '=', '='] == [Sextet(x)] + ([Sextet(y)] + "==");
    DecodeOne(Sextet(x), [Sextet(y)] + "==", 0, 0);
    DecodeOne(Sextet(y), "==", 1, x);
    assert "=="[1..] == "=";
    assert Base64Decode("=", 2, 0, 1) == Some([]);
    assert x * 4 + y / 16 == a && y % 16 == 0;
    assert [a] + [] == [a];
  }

  lemma LonePad(left: nat)
    requires left < 4
    ensures Base64Decode("=", 3, left, 0) == Some([])
  {
  }

  lemma TwoBytes(a: nat, b: nat)
    requires a < 256 && b < 256
    ensures Base64Decode([Sextet(a / 4), Sextet(a % 4 * 16 + b / 16), Sextet(b % 16 * 4), '='], 0, 0, 0) == Some([a, b])
  {
    hide Base64Decode, Sextet, SextetValue;
    var x, y, z := a / 4, a % 4 * 16 + b / 16, b % 16 * 4;
    SextetRoundTrip(x);
    SextetRoundTrip(y);
    SextetRoundTrip(z);
    assert [Sextet(x), Sextet(y), Sextet(z), '='] == [Sextet(x)] + ([Sextet(y)] + ([Sextet(z)] + "="));
    DecodeOne(Sextet(x), [Sextet(y)] + ([Sextet(z)] + "="), 0, 0);
    DecodeOne(Sextet(y), [Sextet(z)] + "=", 1, x);
    DecodeOne(Sextet(z), "=", 2, y % 16);
    LonePad(z % 4);
    assert y % 16 == b / 16 && x * 4 + y / 16 == a && y % 16 * 16 + z / 4 == b;
    assert [a] + ([b] + []) == [a, b];
  }

  lemma ThreeBytes(a: nat, b: nat, c: nat, rest: string)
    requires a < 256 && b < 256 && c < 256
    ensures Base64Decode([Sextet(a / 4), Sextet(a % 4 * 16 + b / 16), Sextet(b % 16 * 4 + c / 64), Sextet(c % 64)] + rest, 0, 0, 0)
            == Prepend(a, Prepend(b, Prepend(c, Base64Decode(rest, 0, 0, 0))))
  {
    hide *;
    var x, y, z, w := a / 4, a % 4 * 16 + b / 16, b % 16 * 4 + c / 64, c % 64;
    SextetRoundTrip(x);
    SextetRoundTrip(y);
    SextetRoundTrip(z);
    SextetRoundTrip(w);
    assert [Sextet(x), Sextet(y), Sextet(z), Sextet(w)] + rest
        == [Sextet(x)] + ([Sextet(y)] + ([Sextet(z)] + ([Sextet(w)] + rest)));
    DecodeOne(Sextet(x), [Sextet(y)] + ([Sextet(z)] + ([Sextet(w)] + rest)), 0, 0);
    DecodeOne(Sextet(y), [Sextet(z)] + ([Sextet(w)] + rest), 1, x);
    DecodeOne(Sextet(z), [Sextet(w)] + rest, 2, y % 16);
    DecodeOne(Sextet(w), rest, 3, z % 4);
    assert x * 4 + y / 16 == a && y % 16 * 16 + z / 4 == b && z % 4 * 64 + w == c;
  }

  // ----- the cursor -----

  function AsciiBytes(s: string): (b: seq<nat>)
    requires AsciiOnly(s)
    ensures Bytes(b)
  {
    seq(|s|, i requires 0 <= i < |s| => s[i] as int)
  }

  predicate IsAscii(b: seq<nat>) {
    forall k | 0 <= k < |b| :: b[k] < 128
  }

  function AsciiText(b: seq<nat>): string
    requires IsAscii(b)
  {
    seq(|b|, i requires 0 <= i < |b| => b[i] as char)
  }

  /** The position of the first '|', or the length of `s`. */
  function FirstPipe(s: string): (k: nat)
    ensures k <= |s| && (k < |s| ==> s[k] == '|')
  {
    if s == "" || s[0] == '|' then 0 else 1 + FirstPipe(s[1..])
  }

  predicate AsciiOnly(s: string) {
    forall k | 0 <= k < |s| :: s[k] as int < 128
  }

  lemma CursorTextIsAscii(t: Timestamp, id: nat)
    requires ValidTimestamp(t) && id < UUID_LIMIT
    ensures AsciiOnly(IsoFormat(t) + "|" + UuidText(id))
  {
    hide IsoFormat, UuidText, ParseIso, ParseUuid;
    IsoRoundTrip(t);
    UuidRoundTrip(id);
  }

  function EncodeCursor(t: Timestamp, id: nat): string
    requires ValidTimestamp(t) && id < UUID_LIMIT
  {
    CursorTextIsAscii(t, id);
    Base64Encode(AsciiBytes(IsoFormat(t) + "|" + UuidText(id)))
  }

  /** Splits at the first '|' and parses both halves. */
  function SplitAndParse(raw: string): (r: Result<(Timestamp, nat), CursorError>)
    ensures r.Ok? ==> ValidTimestamp(r.value.0)
  {
    var k := FirstPipe(raw);
    if k == |raw| then Err(MalformedCursor)
    else match (ParseIso(raw[..k]), ParseUuid(raw[k + 1..]))
      case (Some(t), Some(id)) => Ok((t, id))
      case _ => Err(MalformedCursor)
  }

  function DecodeCursor(cursor: string): (r: Result<(Timestamp, nat), CursorError>)
    ensures r.Ok? ==> ValidTimestamp(r.value.0)
  {
    if !AsciiOnly(cursor) then Err(MalformedCursor)
    else match Base64Decode(cursor, 0, 0, 0)
      case None => Err(MalformedCursor)
      case Some(b) => if IsAscii(b) then SplitAndParse(AsciiText(b)) else Err(MalformedCursor)
  }

  lemma {:induction false} FirstPipeAfterPlain(s: string, rest: string)
    requires Plain(s)
    ensures FirstPipe(s + "|" + rest) == |s|
  {
    if s != "" {
      assert (s + "|" + rest)[1..] == s[1..] + "|" + rest;
      FirstPipeAfterPlain(s[1..], rest);
    }
  }

  predicate Base64Char(c: char) {
    'A' <= c <= 'Z' || 'a' <= c <= 'z' || '0' <= c <= '9' || c == '-' || c == '_' || c == '='
  }

  /** A cursor is made of url-safe characters only: no '|' and no ':' shows through, and it is never empty. */
  lemma {:induction false} Base64IsOpaque(b: seq<nat>)
    requires Bytes(b)
    ensures forall k | 0 <= k < |Base64Encode(b)| :: Base64Char(Base64Encode(b)[k])
    ensures b != [] ==> Base64Encode(b) != ""
    decreases |b|
  {
    if |b| >= 3 {
      Base64IsOpaque(b[3..]);
      var head := [Sextet(b[0] / 4), Sextet(b[0] % 4 * 16 + b[1] / 16), Sextet(b[1] % 16 * 4 + b[2] / 64), Sextet(b[2] % 64)];
      assert Base64Encode(b) == head + Base64Encode(b[3..]);
    }
  }

  lemma SplitUndoesJoin(ts: string, ids: string)
    requires Plain(ts)
    ensures SplitAndParse(ts + "|" + ids) ==
      match (ParseIso(ts), ParseUuid(ids)) case (Some(t), Some(id)) => Ok((t, id)) case _ => Err(MalformedCursor)
  {
    var raw := ts + "|" + ids;
    FirstPipeAfterPlain(ts, ids);
    assert raw[..|ts|] == ts;
    assert raw[|ts| + 1..] == ids;
  }

  /** Decoding a cursor gives back exactly the timestamp and the id it was made from. */
  lemma CursorRoundTrip(t: Timestamp, id: nat)
    requires ValidTimestamp(t) && id < UUID_LIMIT
    ensures DecodeCursor(EncodeCursor(t, id)) == Ok((t, id))
    ensures EncodeCursor(t, id) != ""
    ensures forall k | 0 <= k < |EncodeCursor(t, id)| :: Base64Char(EncodeCursor(t, id)[k])
  {
    hide Base64Encode, Base64Decode, IsoFormat, UuidText, ParseIso, ParseUuid, FirstPipe, SplitAndParse;
    IsoRoundTrip(t);
    UuidRoundTrip(id);
    var ts, ids := IsoFormat(t), UuidText(id);
    var b := AsciiBytes(ts + "|" + ids);
    assert EncodeCursor(t, id) == Base64Encode(b);
    Base64RoundTrip(b);
    Base64IsOpaque(b);
    assert AsciiText(b) == ts + "|" + ids;
    SplitUndoesJoin(ts, ids);
  }

  /** Hence different rows have different cursors. */
  lemma CursorsAreInjective(t: Timestamp, id: nat, t': Timestamp, id': nat)
    requires ValidTimestamp(t) && id < UUID_LIMIT && ValidTimestamp(t') && id' < UUID_LIMIT
    requires EncodeCursor(t, id) == EncodeCursor(t', id')
    ensures t == t' && id == id'
  {
    CursorRoundTrip(t, id);
    CursorRoundTrip(t', id');
  }

  lemma {:induction false} NumberBound(s: string)
    requires Number(s, 16).Some?
    ensures Number(s, 16).value < Pow(16, |s|)
    decreases |s|
  {
    if s != "" {
      NumberBound(s[..|s| - 1]);
    }
  }

  /** Whatever a client sends: a cursor that decodes at all means the same as the canonical cursor of what it decodes to. */
  lemma DecodedCursorsAreCanonical(cursor: string, t: Timestamp, id: nat)
    requires DecodeCursor(cursor) == Ok((t, id))
    ensures ValidTimestamp(t) && id < UUID_LIMIT
    ensures DecodeCursor(EncodeCursor(t, id)) == DecodeCursor(cursor)
  {
    var raw := AsciiText(Base64Decode(cursor, 0, 0, 0).value);
    var h := WithoutHyphens(StripBraces(raw[FirstPipe(raw) + 1..]));
    assert Number(h, 16) == Some(id) && |h| == 32;
    NumberBound(h);
    PowOfHex(32);
    CursorRoundTrip(t, id);
  }
}
