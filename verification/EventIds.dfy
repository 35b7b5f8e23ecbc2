/**
  Event identifiers: the text of the commit LSN, a colon, and the sequence number
  (internal/source/decoder.go:320-323). The text form of an LSN is the usual
  `%X/%X` of its two 32-bit halves.
*/
module EventIds {
  import opened Wrappers
  import opened Cdc

  const HALF: nat := 0x1_0000_0000

  function Base(hex: bool): nat {
    if hex then 16 else 10
  }

  function Digits(n: nat, hex: bool): (r: seq<nat>)
    ensures forall i | 0 <= i < |r| :: r[i] < Base(hex)
  {
    if n < Base(hex) then [n] else Digits(n / Base(hex), hex) + [n % Base(hex)]
  }

  function Number(digits: seq<nat>, hex: bool): nat {
    if digits == [] then 0 else Number(digits[..|digits| - 1], hex) * Base(hex) + digits[|digits| - 1]
  }

  lemma {:induction false} NumberOfDigits(n: nat, hex: bool)
    ensures Number(Digits(n, hex), hex) == n
  {
    if n < Base(hex) {
      assert [n][..0] == [];
    } else {
      var init := Digits(n / Base(hex), hex);
      assert (init + [n % Base(hex)])[..|init|] == init;
      NumberOfDigits(n / Base(hex), hex);
    }
  }

  const DIGITS := "0123456789ABCDEF"

  /** `%X` when `hex`, `%d` otherwise. */
  function Render(n: nat, hex: bool): (s: string)
    ensures |s| == |Digits(n, hex)|
    ensures forall i | 0 <= i < |s| :: s[i] == DIGITS[Digits(n, hex)[i]]
  {
    var digits := Digits(n, hex);
    seq(|digits|, i requires 0 <= i < |digits| => DIGITS[digits[i]])
  }

  /** No padding: the text of a positive number does not start with zero. */
  lemma {:induction false} RenderIsCanonical(n: nat, hex: bool)
    ensures |Render(n, hex)| >= 1 && (Render(n, hex)[0] == '0' ==> n == 0)
    ensures n < Base(hex) ==> |Render(n, hex)| == 1
  {
    LeadingDigit(n, hex);
  }

  lemma {:induction false} LeadingDigit(n: nat, hex: bool)
    ensures |Digits(n, hex)| >= 1 && (Digits(n, hex)[0] == 0 ==> n == 0)
  {
    if n >= Base(hex) {
      LeadingDigit(n / Base(hex), hex);
    }
  }

  function LsnText(lsn: Lsn): string {
    Render((lsn / HALF) % HALF, true) + ['/'] + Render(lsn % HALF, true)
  }

  function EventId(lsn: Lsn, sequence: nat): string {
    LsnText(lsn) + [':'] + Render(sequence, false)
  }

  // ---- reading an identifier back ---------------------------------------------------

  /** What a digit character is worth; anything else is worth nothing. */
  function Worth(c: char): nat {
    if '0' <= c <= '9' then c as int - '0' as int
    else if 'A' <= c <= 'F' then c as int - 'A' as int + 10
    else 0
  }

  /** The number a text spells in a base. */
  function ReadNumber(s: string, base: nat): nat {
    if s == "" then 0 else ReadNumber(s[..|s| - 1], base) * base + Worth(s[|s| - 1])
  }

  /** The text before and after the first `sep`. */
  function Cut(s: string, sep: char): Option<(string, string)> {
    if s == "" then None
    else if s[0] == sep then Some(("", s[1..]))
    else match Cut(s[1..], sep) case None => None case Some((a, b)) => Some(([s[0]] + a, b))
  }

  /** The two halves of a textual LSN. */
  function ReadLsn(s: string): Option<(nat, nat)> {
    match Cut(s, '/')
    case None => None
    case Some((high, low)) => Some((ReadNumber(high, 16), ReadNumber(low, 16)))
  }

  /** The halves of the LSN and the sequence number of an identifier. */
  function ReadId(s: string): Option<(nat, nat, nat)> {
    match Cut(s, ':')
    case None => None
    case Some((lsn, sequence)) =>
      match ReadLsn(lsn)
      case None => None
      case Some((high, low)) => Some((high, low, ReadNumber(sequence, 10)))
  }

  lemma {:induction false} CutAt(a: string, b: string, sep: char)
    requires sep !in a
    ensures Cut(a + [sep] + b, sep) == Some((a, b))
  {
    var s := a + [sep] + b;
    if a == "" {
      assert s[1..] == b;
    } else {
      assert s[0] == a[0] && s[1..] == a[1..] + [sep] + b;
      CutAt(a[1..], b, sep);
      assert a == [a[0]] + a[1..];
    }
  }

  lemma {:induction false} ReadDigits(s: string, digits: seq<nat>, hex: bool)
    requires |s| == |digits| && forall i | 0 <= i < |s| :: digits[i] < 16 && s[i] == DIGITS[digits[i]]
    ensures ReadNumber(s, if hex then 16 else 10) == Number(digits, hex)
  {
    if s != "" {
      ReadDigits(s[..|s| - 1], digits[..|digits| - 1], hex);
    }
  }

  /** A rendered number reads back as itself. */
  lemma {:induction false} ReadRender(n: nat, hex: bool)
    ensures ReadNumber(Render(n, hex), if hex then 16 else 10) == n
  {
    ReadDigits(Render(n, hex), Digits(n, hex), hex);
    NumberOfDigits(n, hex);
  }

  lemma {:induction false} RenderHasNo(n: nat, hex: bool, c: char)
    requires c == '/' || c == ':'
    ensures c !in Render(n, hex)
  {
  }

  lemma {:induction false} ReadHalves(high: nat, low: nat)
    ensures ReadLsn(Render(high, true) + ['/'] + Render(low, true)) == Some((high, low))
  {
    RenderHasNo(high, true, '/');
    CutAt(Render(high, true), Render(low, true), '/');
    ReadRender(high, true);
    ReadRender(low, true);
  }

  lemma {:induction false} ReadLsnText(l: Lsn)
    requires l < HALF * HALF
    ensures ReadLsn(LsnText(l)) == Some((l / HALF, l % HALF))
  {
    assert (l / HALF) % HALF == l / HALF;
    ReadHalves(l / HALF, l % HALF);
  }

  /** An identifier tells the two halves of the commit LSN, in hexadecimal, and the sequence number, in decimal. */
  lemma {:induction false} ReadEventId(l: Lsn, i: nat)
    requires l < 0x1_0000_0000_0000_0000
    ensures ReadId(EventId(l, i)) == Some((l / 0x1_0000_0000, l % 0x1_0000_0000, i))
  {
    RenderHasNo((l / HALF) % HALF, true, ':');
    RenderHasNo(l % HALF, true, ':');
    CutAt(LsnText(l), Render(i, false), ':');
    ReadLsnText(l);
    ReadRender(i, false);
  }

  lemma {:induction false} LsnTextInjective(l: Lsn, m: Lsn)
    requires l < HALF * HALF && m < HALF * HALF && LsnText(l) == LsnText(m)
    ensures l == m
  {
    ReadLsnText(l);
    ReadLsnText(m);
  }

  /** Two events share an identifier only if they share commit LSN and sequence. */
  lemma {:induction false} EventIdInjective(l: Lsn, i: nat, m: Lsn, j: nat)
    requires l < HALF * HALF && m < HALF * HALF && EventId(l, i) == EventId(m, j)
    ensures l == m && i == j
  {
    ReadEventId(l, i);
    ReadEventId(m, j);
  }
}
