/** Diameter session identifiers: src/ta_cli.c, lines 12-50. The layout is the one recommended in
    section 8.8 of RFC 6733: identity;high;low[;optional value]. */
module SessionId {
  import opened Arithmetic
  import opened Wrappers

  const WORD := 0x1_0000_0000

  // ------------------------------------------------------------------ decimal numbers

  function Digit(d: nat): (c: char)
    requires d < 10
    ensures '0' <= c <= '9'
  {
    '0' + d as char
  }

  /** What printf's %u prints. */
  function Decimal(n: nat): (s: string)
    ensures s != [] && forall k :: 0 <= k < |s| ==> '0' <= s[k] <= '9'
    ensures s[0] == '0' ==> s == "0"
  {
    if n < 10 then [Digit(n)] else Decimal(n / 10) + [Digit(n % 10)]
  }

  /** The number a row of digits stands for. */
  function Value(s: string): nat
    requires forall k :: 0 <= k < |s| ==> '0' <= s[k] <= '9'
  {
    if s == [] then 0 else 10 * Value(s[..|s| - 1]) + (s[|s| - 1] - '0') as nat
  }

  lemma {:induction false} DecimalValue(n: nat)
    ensures Value(Decimal(n)) == n
  {
    if n >= 10 {
      DecimalValue(n / 10);
      var s := Decimal(n);
      assert s[..|s| - 1] == Decimal(n / 10);
    }
  }

  function Pow10(k: nat): (p: nat)
    ensures p > 0
  {
    if k == 0 then 1 else 10 * Pow10(k - 1)
  }

  lemma {:induction false} DecimalLength(n: nat, k: nat)
    requires k > 0 && n < Pow10(k)
    ensures |Decimal(n)| <= k
  {
    if n >= 10 {
      assert k > 1 by { assert Pow10(1) == 10 * Pow10(0); }
      assert Pow10(k) == 10 * Pow10(k - 1);
      DecimalLength(n / 10, k - 1);
    }
  }

  /** A 32-bit number has at most ten digits. */
  lemma WordLength(n: nat)
    requires n < WORD
    ensures |Decimal(n)| <= 10
  {
    assert Pow10(5) == 100_000 by { assert Pow10(3) == 1000; }
    Pow10Ten();
    DecimalLength(n, 10);
  }

  lemma Pow10Ten()
    ensures Pow10(10) == 10_000_000_000
  {
    assert Pow10(2) == 100;
    assert Pow10(4) == 10_000;
    assert Pow10(6) == 1_000_000;
    assert Pow10(8) == 100_000_000;
  }

  // ------------------------------------------------------------------ the layout

  /** What %.*s prints: a C string stops at its first NUL byte. */
  function Printed(s: string): (p: string)
    ensures p <= s && '\0' !in p && (|p| < |s| ==> s[|p|] == '\0')
  {
    if s == [] || s[0] == '\0' then [] else [s[0]] + Printed(s[1..])
  }

  function Counters(high: nat, low: nat): string {
    ";" + Decimal(high) + ";" + Decimal(low)
  }

  function OptPart(opt: Option<string>): string {
    match opt
    case None => ""
    case Some(o) => ";" + Printed(o)
  }

  /** The identifier as printed, whatever room there is. */
  function Format(id: string, high: nat, low: nat, opt: Option<string>): string {
    Printed(id) + Counters(high, low) + OptPart(opt)
  }

  lemma FormatLayout(id: string, high: nat, low: nat, opt: Option<string>)
    ensures Format(id, high, low, opt) == Printed(id) + ";" + Decimal(high) + ";" + Decimal(low) + OptPart(opt)
  {
    hide Printed, Decimal, OptPart;
    var p, h, l := Printed(id), Decimal(high), Decimal(low);
    assert Counters(high, low) == ";" + h + ";" + l;
    assert p + (";" + h + ";" + l) == p + ";" + h + ";" + l;
  }

  /** The room get_sid allocates, without the final NUL byte. */
  function Room(id: string, opt: Option<string>): nat {
    |id| + 22 + match opt case None => 0 case Some(o) => 1 + |o|
  }

  /** snprintf cuts off what does not fit. */
  function Truncated(s: string, room: nat): string {
    if |s| <= room then s else s[..room]
  }

  /** The allocated room is always enough. */
  lemma NeverTruncated(id: string, high: nat, low: nat, opt: Option<string>)
    requires high < WORD && low < WORD
    ensures Truncated(Format(id, high, low, opt), Room(id, opt)) == Format(id, high, low, opt)
  {
    WordLength(high);
    WordLength(low);
  }

  /** The digits at the start of a string. */
  function Digits(s: string): (d: string)
    ensures |d| <= |s| && forall k :: 0 <= k < |d| ==> '0' <= d[k] <= '9'
  {
    if s == [] || !('0' <= s[0] <= '9') then [] else [s[0]] + Digits(s[1..])
  }

  lemma {:induction false} DigitsPrefix(d: string, rest: string)
    requires forall k :: 0 <= k < |d| ==> '0' <= d[k] <= '9'
    requires rest == [] || !('0' <= rest[0] <= '9')
    ensures Digits(d + rest) == d
  {
    if d == [] {
      assert d + rest == rest;
    } else {
      assert (d + rest)[1..] == d[1..] + rest;
      DigitsPrefix(d[1..], rest);
    }
  }

  /** Reading the two counters back, knowing the identity. */
  function Parse(id: string, s: string): (nat, nat) {
    var p := Printed(id);
    if |s| <= |p| then (0, 0)
    else
      var high := Digits(s[|p| + 1..]);
      if |s| <= |p| + 1 + |high| then (Value(high), 0)
      else (Value(high), Value(Digits(s[|p| + 1 + |high| + 1..])))
  }

  lemma Skip(p: string, c: char, t: string)
    ensures (p + ([c] + t))[|p| + 1..] == t
  {
  }

  lemma FormatParts(id: string, high: nat, low: nat, opt: Option<string>) returns (end: string)
    ensures end == [] || end[0] == ';'
    ensures Format(id, high, low, opt) == Printed(id) + ([';'] + (Decimal(high) + ([';'] + (Decimal(low) + end))))
  {
    end := OptPart(opt);
    assert end == [] || end[0] == ';';
    hide *;
    assert Counters(high, low) == [';'] + (Decimal(high) + ([';'] + Decimal(low))) by { CountersParts(high, low); }
    assert Format(id, high, low, opt) == Printed(id) + Counters(high, low) + end by {
      FormatEnd(id, high, low, opt, end);
    }
  }

  lemma CountersParts(high: nat, low: nat)
    ensures Counters(high, low) == [';'] + (Decimal(high) + ([';'] + Decimal(low)))
  {
  }

  lemma FormatEnd(id: string, high: nat, low: nat, opt: Option<string>, end: string)
    requires end == OptPart(opt)
    ensures Format(id, high, low, opt) == Printed(id) + Counters(high, low) + end
  {
  }

  /** The counters can be read back from the identifier, even if the identity has separators. */
  lemma ParseFormat(id: string, high: nat, low: nat, opt: Option<string>)
    ensures Parse(id, Format(id, high, low, opt)) == (high, low)
  {
    hide Format, Printed, Decimal, Digits, Value;
    var s, p, h, l := Format(id, high, low, opt), Printed(id), Decimal(high), Decimal(low);
    var end := FormatParts(id, high, low, opt);
    var t := h + ([';'] + (l + end));
    Skip(p, ';', t);
    DigitsPrefix(h, [';'] + (l + end));
    Skip(h, ';', l + end);
    DigitsPrefix(l, end);
    assert s[|p| + 1 + |h| + 1..] == t[|h| + 1..];
    DecimalValue(high);
    DecimalValue(low);
  }

  // ------------------------------------------------------------------ the generator

  /** The identifier made from a 64-bit counter. */
  function Identifier(id: string, opt: Option<string>, counter: nat): string
  {
    Format(id, counter / WORD % WORD, counter % WORD, opt)
  }

  class SidGenerator {
    var sidH: nat
    var sidL: nat

    ghost predicate Valid()
      reads this
    {
      sidH < WORD && sidL < WORD
    }

    ghost function Counter(): nat
      reads this
    {
      sidH * WORD + sidL
    }

    /** dsinit; the time is converted to 32 bits. */
    constructor (time: nat)
      ensures Valid() && Counter() == time % WORD * WORD
    {
      sidH, sidL := time % WORD, 0;
    }

    /** get_sid: both counters together are one 64-bit number that is advanced by one. */
    method GetSid(id: string, opt: Option<string>) returns (sid: string)
      requires Valid()
      modifies this
      ensures Valid() && Counter() == (old(Counter()) + 1) % (WORD * WORD)
      ensures sid == Identifier(id, opt, Counter())
      ensures Parse(id, sid) == (sidH, sidL)
      ensures sid == Printed(id) + ";" + Decimal(sidH) + ";" + Decimal(sidL) + OptPart(opt)
    {
      hide Format, Truncated, Parse, Printed, Decimal, OptPart;
      var room := |id|;
      room := room + 22;
      match opt {
        case None =>
        case Some(o) => room := room + 1 + |o|;
      }
      sidL := (sidL + 1) % WORD;
      if sidL == 0 {
        sidH := (sidH + 1) % WORD;
      }
      sid := Truncated(Format(id, sidH, sidL, opt), room);
      NeverTruncated(id, sidH, sidL, opt);
      SplitCounter(sidH, sidL);
      ParseFormat(id, sidH, sidL, opt);
      FormatLayout(id, sidH, sidL, opt);
    }
  }

  /** The identifier of the i-th call after the counter stood at c. */
  function Nth(id: string, opt: Option<string>, c: nat, i: nat): string {
    Identifier(id, opt, (c + i) % (WORD * WORD))
  }

  lemma SplitCounter(high: nat, low: nat)
    requires high < WORD && low < WORD
    ensures var c := high * WORD + low;
      c < WORD * WORD && c / WORD % WORD == high && c % WORD == low
  {
  }

  lemma IdentifierInjective(id: string, opt: Option<string>, m: nat, n: nat)
    requires m < WORD * WORD && n < WORD * WORD
    ensures Identifier(id, opt, m) == Identifier(id, opt, n) <==> m == n
  {
    hide Format, Parse;
    ParseFormat(id, m / WORD % WORD, m % WORD, opt);
    ParseFormat(id, n / WORD % WORD, n % WORD, opt);
  }

  /** Among 2^64 consecutive calls no two return the same identifier, and no more can. */
  lemma DistinctIdentifiers(id: string, opt: Option<string>, c: nat, i: nat, j: nat)
    requires i <= j
    ensures Nth(id, opt, c, i) == Nth(id, opt, c, j) <==> (j - i) % (WORD * WORD) == 0
  {
    hide Identifier;
    IdentifierInjective(id, opt, (c + i) % (WORD * WORD), (c + j) % (WORD * WORD));
    SameRemainder(c + i, c + j, WORD * WORD);
  }
}
