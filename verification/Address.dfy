/**
 EMSD addresses as text: what the scanners of msgstore.c and subpro.c read, and what
 the printers of parse_ipm.c and msgstore.c write.
 */
module Address {
  import opened Common

  const ULONG_MAX: nat := 0xFFFF_FFFF

  predicate IsDigit(c: char) { '0' <= c <= '9' }

  function DigitValue(c: char): (v: nat)
    requires IsDigit(c)
    ensures v < 10
  {
    (c - '0') as nat
  }

  predicate IsSpace(c: char) { c == ' ' || '\t' <= c <= '\r' }

  // ---------- scanning ----------

  /** The value of the digits at the front of `s`, read on from `acc`, and what follows them. */
  function Digits(s: string, acc: nat): (nat, string) {
    if s != [] && IsDigit(s[0]) then Digits(s[1..], acc * 10 + DigitValue(s[0])) else (acc, s)
  }

  function SkipSpace(s: string): string {
    if s != [] && IsSpace(s[0]) then SkipSpace(s[1..]) else s
  }

  /** strtoul: too large a number is ULONG_MAX, a minus sign negates in 32 bits. */
  function ToUlong(v: nat, negative: bool): Uint32 {
    if v > ULONG_MAX then ULONG_MAX
    else if negative then (0x1_0000_0000 - v) % 0x1_0000_0000
    else v
  }

  /** One `%lu` conversion: white space, a sign, digits. */
  function ReadUlong(s: string): Option<(Uint32, string)> {
    var t := SkipSpace(s);
    var negative := t != [] && t[0] == '-';
    var u := if t != [] && (t[0] == '-' || t[0] == '+') then t[1..] else t;
    if u == [] || !IsDigit(u[0]) then None
    else
      var (v, rest) := Digits(u, 0);
      Some((ToUlong(v, negative), rest))
  }

  /** A further `.%lu` of a scan format: the field read after a point, if there is one. */
  function ReadPointUlong(s: string): Option<(Uint32, string)> {
    if s != [] && s[0] == '.' then ReadUlong(s[1..]) else None
  }

  function TwoFields(hi: Uint32, lo: Uint32): Uint32 {
    (hi as int * 1000 + lo as int) % 0x1_0000_0000
  }

  /**
   The address a text denotes when scanned with "%lu.%lu.%lu": `n` when one field is read,
   hi * 1000 + lo in 32 bits when two are; no field, or three, denote no address.
   */
  function Denoted(s: string): Option<Uint32> {
    match ReadUlong(s)
    case None => None
    case Some((first, rest)) =>
      match ReadPointUlong(rest)
      case None => Some(first)
      case Some((second, rest')) =>
        if ReadPointUlong(rest').Some? then None else Some(TwoFields(first, second))
  }

  /** msg_rfc822ToEmsdAddr: 0 stands for "not an EMSD address". */
  function Rfc822ToEmsdAddr(s: Option<string>): Uint32 {
    if s.None? then 0
    else match Denoted(s.value) case Some(a) => a case None => 0
  }

  /** emsdAuaEqual: both texts denote an address, and it is the same. */
  predicate AuaEqual(s1: string, s2: string) {
    Denoted(s1).Some? && Denoted(s1) == Denoted(s2)
  }

  // ---------- printing ----------

  function Digit(n: nat): (c: char)
    requires n < 10
    ensures IsDigit(c) && DigitValue(c) == n
  {
    '0' + n as char
  }

  /** `%lu`. */
  function Decimal(n: nat): (s: string)
    ensures |s| > 0 && IsDigit(s[0])
  {
    if n < 10 then [Digit(n)] else Decimal(n / 10) + [Digit(n % 10)]
  }

  /** `%03ld`. */
  function Padded(n: nat): (s: string)
    ensures |s| > 0 && IsDigit(s[0])
  {
    var s := Decimal(n);
    if |s| == 1 then "00" + s else if |s| == 2 then "0" + s else s
  }

  /** The local part printed for a local-format recipient. */
  function Dotted(a: Uint32): string {
    Padded(a / 1000) + "." + Padded(a % 1000)
  }

  // ---------- printing, then scanning ----------

  lemma {:induction false} DigitsOfDecimal(n: nat, rest: string)
    ensures Digits(Decimal(n) + rest, 0) == Digits(rest, n)
  {
    if n < 10 {
      assert (Decimal(n) + rest)[1..] == rest;
    } else {
      var last := [Digit(n % 10)];
      assert Decimal(n) + rest == Decimal(n / 10) + (last + rest);
      DigitsOfDecimal(n / 10, last + rest);
      assert (last + rest)[1..] == rest;
    }
  }

  lemma DigitsOfPadded(n: nat, rest: string)
    ensures Digits(Padded(n) + rest, 0) == Digits(rest, n)
  {
    var s := Decimal(n);
    DigitsOfDecimal(n, rest);
    if |s| == 1 {
      LeadingZero(s + rest);
      LeadingZero("0" + (s + rest));
      assert Padded(n) + rest == "0" + ("0" + (s + rest));
    } else if |s| == 2 {
      LeadingZero(s + rest);
      assert Padded(n) + rest == "0" + (s + rest);
    }
  }

  lemma LeadingZero(s: string)
    ensures Digits("0" + s, 0) == Digits(s, 0)
  {
    assert ("0" + s)[1..] == s;
  }

  /** A `%lu` conversion that starts at a digit takes the digits and stops right after them. */
  lemma ReadsDigits(text: string, v: Uint32, rest: string)
    requires text != [] && IsDigit(text[0])
    requires Digits(text, 0) == (v as nat, rest)
    ensures ReadUlong(text) == Some((v, rest))
  {
    assert SkipSpace(text) == text;
  }

  /** The text `%lu` of an address reads back as the address, whatever non-numeric text follows. */
  lemma PlainTextReadsBack(a: Uint32, rest: string)
    requires rest == [] || (!IsDigit(rest[0]) && rest[0] != '.')
    ensures Denoted(Decimal(a) + rest) == Some(a)
  {
    DigitsOfDecimal(a, rest);
    ReadsDigits(Decimal(a) + rest, a, rest);
  }

  /** One padded field, followed by what is no digit. */
  lemma ReadPadded(n: Uint32, rest: string)
    requires rest == [] || !IsDigit(rest[0])
    ensures ReadUlong(Padded(n) + rest) == Some((n, rest))
  {
    DigitsOfPadded(n, rest);
    ReadsDigits(Padded(n) + rest, n, rest);
  }

  lemma {:induction false} DottedApart(a: Uint32, rest: string)
    ensures Dotted(a) + rest == Padded(a / 1000) + ("." + (Padded(a % 1000) + rest))
  {
  }

  /** Two fields with a point between, whatever their texts are. */
  lemma {:induction false} BothFields(s: string, hi: Uint32, u: string, lo: Uint32, rest: string)
    requires ReadUlong(s) == Some((hi, "." + u)) && ReadUlong(u) == Some((lo, rest)) && (rest == [] || rest[0] != '.')
    ensures Denoted(s) == Some((hi * 1000 + lo) % 0x1_0000_0000)
  {
    assert ("." + u)[1..] == u;
  }

  lemma {:induction false} PaddedFieldsRead(hi: Uint32, lo: Uint32, rest: string)
    requires rest == [] || (!IsDigit(rest[0]) && rest[0] != '.')
    ensures Denoted(Padded(hi) + ("." + (Padded(lo) + rest))) == Some((hi * 1000 + lo) % 0x1_0000_0000)
  {
    ReadPadded(hi, "." + (Padded(lo) + rest));
    ReadPadded(lo, rest);
    BothFields(Padded(hi) + ("." + (Padded(lo) + rest)), hi, Padded(lo) + rest, lo, rest);
  }

  lemma {:induction false} ThousandsAndRest(a: Uint32)
    ensures (a / 1000 * 1000 + a % 1000) % 0x1_0000_0000 == a
  {
  }

  /** The text `%03ld.%03ld` of a/1000 and a%1000 reads back as the address. */
  lemma DottedTextReadsBack(a: Uint32, rest: string)
    requires rest == [] || (!IsDigit(rest[0]) && rest[0] != '.')
    ensures Denoted(Dotted(a) + rest) == Some(a)
  {
    var hi, lo := a / 1000, a % 1000;
    DottedApart(a, rest);
    ThousandsAndRest(a);
    PaddedFieldsRead(hi, lo, rest);
  }

  lemma PlainAlone(a: Uint32)
    ensures Denoted(Decimal(a)) == Some(a)
  {
    var text := Decimal(a) + "";
    PlainTextReadsBack(a, "");
    assert text == Decimal(a);
  }

  lemma DottedAlone(a: Uint32)
    ensures Denoted(Dotted(a)) == Some(a)
  {
    var text := Dotted(a) + "";
    DottedTextReadsBack(a, "");
    assert text == Dotted(a);
  }

  /** What lookups by address rest on: printing an address and comparing texts is comparing addresses. */
  lemma PrintedAuaEqual(id: string, a: Uint32)
    ensures AuaEqual(id, Decimal(a)) <==> Denoted(id) == Some(a)
  {
    PlainAlone(a);
  }

  /** Two addresses never share a printed form, in either notation or across the two. */
  lemma {:induction false} PrintedFormsAreUnambiguous(a: Uint32, b: Uint32)
    requires Dotted(a) == Dotted(b) || Decimal(a) == Decimal(b) || Dotted(a) == Decimal(b)
    ensures a == b
  {
    PlainAlone(a);
    PlainAlone(b);
    DottedAlone(a);
    DottedAlone(b);
  }

  /** One field, followed by what is no digit. */
  lemma {:induction false} ReadDecimal(n: Uint32, rest: string)
    requires rest == [] || !IsDigit(rest[0])
    ensures ReadUlong(Decimal(n) + rest) == Some((n, rest))
  {
    DigitsOfDecimal(n, rest);
    ReadsDigits(Decimal(n) + rest, n, rest);
  }

  lemma {:induction false} TwoFieldsRead(hi: Uint32, lo: Uint32, rest: string)
    requires rest == [] || (!IsDigit(rest[0]) && rest[0] != '.')
    ensures Denoted(Decimal(hi) + ("." + (Decimal(lo) + rest))) == Some((hi * 1000 + lo) % 0x1_0000_0000)
  {
    ReadDecimal(hi, "." + (Decimal(lo) + rest));
    ReadDecimal(lo, rest);
    BothFields(Decimal(hi) + ("." + (Decimal(lo) + rest)), hi, Decimal(lo) + rest, lo, rest);
  }

  /** The recipient's address, whatever follows it: one printed either way, or any two numbers with a point between. */
  lemma {:induction false} RecipientIsRead(a: Uint32, hi: Uint32, lo: Uint32, rest: string)
    requires rest == [] || (!IsDigit(rest[0]) && rest[0] != '.')
    ensures Rfc822ToEmsdAddr(Some(Decimal(a) + rest)) == a && Rfc822ToEmsdAddr(Some(Dotted(a) + rest)) == a
    ensures Rfc822ToEmsdAddr(Some(Decimal(hi) + ("." + (Decimal(lo) + rest)))) == (hi * 1000 + lo) % 0x1_0000_0000
  {
    PlainTextReadsBack(a, rest);
    DottedTextReadsBack(a, rest);
    TwoFieldsRead(hi, lo, rest);
  }

  /** White space, as `isspace` has it. */
  predicate White(s: string) {
    forall i :: 0 <= i < |s| ==> s[i] in {' ', '\t', '\n', '\U{000b}', '\U{000c}', '\r'}
  }

  lemma {:induction false} WhiteSkipped(white: string, rest: string)
    requires White(white) && rest != [] && !IsSpace(rest[0])
    ensures SkipSpace(white + rest) == rest
  {
    if white == [] {
      assert white + rest == rest;
    } else {
      assert (white + rest)[1..] == white[1..] + rest;
      WhiteSkipped(white[1..], rest);
    }
  }

  lemma {:induction false} SignedNumber(sign: string, n: nat, rest: string)
    requires sign in {"", "+", "-"} && (rest == [] || !IsDigit(rest[0]))
    ensures var t := sign + (Decimal(n) + rest);
            && t != [] && !IsSpace(t[0])
            && ReadUlong(t) == Some((ToUlong(n, sign == "-"), rest))
  {
    var number := Decimal(n) + rest;
    var t := sign + number;
    DigitsOfDecimal(n, rest);
    assert SkipSpace(t) == t;
    assert sign != "" ==> t[0] == sign[0] && t[1..] == number;
    assert sign == "" ==> t == number;
  }

  lemma {:induction false} WhiteBefore(white: string, t: string)
    requires White(white) && t != [] && !IsSpace(t[0])
    ensures ReadUlong(white + t) == ReadUlong(t)
  {
    WhiteSkipped(white, t);
    assert SkipSpace(t) == t;
  }

  /** A number in front: white space before it does not count, nor does a plus sign; a minus sign negates in 32 bits; one too large is the largest. */
  lemma {:induction false} SignedIsRead(white: string, sign: string, n: nat, rest: string)
    requires White(white) && sign in {"", "+", "-"} && (rest == [] || (!IsDigit(rest[0]) && rest[0] != '.'))
    ensures Rfc822ToEmsdAddr(Some(white + (sign + (Decimal(n) + rest)))) ==
            if n >= 0x1_0000_0000 then 0xFFFF_FFFF else if sign == "-" then (0x1_0000_0000 - n) % 0x1_0000_0000 else n
  {
    SignedNumber(sign, n, rest);
    WhiteBefore(white, sign + (Decimal(n) + rest));
  }

  /** No recipient of ours: none at all, a text that does not begin with a number, or one with three numbers. */
  lemma {:induction false} NoRecipient(s: string, a: Uint32, b: Uint32, c: Uint32, rest: string)
    requires s == [] || (!IsDigit(s[0]) && !IsSpace(s[0]) && s[0] != '-' && s[0] != '+')
    requires rest == [] || !IsDigit(rest[0])
    ensures Rfc822ToEmsdAddr(None) == 0 && Rfc822ToEmsdAddr(Some(s)) == 0
    ensures Rfc822ToEmsdAddr(Some(Decimal(a) + ("." + (Decimal(b) + ("." + (Decimal(c) + rest)))))) == 0
  {
    assert SkipSpace(s) == s;
    var third := "." + (Decimal(c) + rest);
    var second := "." + (Decimal(b) + third);
    assert third[1..] == Decimal(c) + rest && second[1..] == Decimal(b) + third;
    ReadDecimal(a, second);
    ReadDecimal(b, third);
    ReadDecimal(c, rest);
  }

  // ---------- NSAPs as text ----------

  /** `%d.%d.%d.%d` of the octets of an NSAP. */
  function NsapText(n: Nsap): string {
    Decimal(n.a0) + ("." + (Decimal(n.a1) + ("." + (Decimal(n.a2) + ("." + Decimal(n.a3))))))
  }

  lemma DecimalThenPoint(a: nat, s: string, b: nat, t: string)
    requires Decimal(a) + ("." + s) == Decimal(b) + ("." + t)
    ensures a == b && s == t
  {
    DigitsOfDecimal(a, "." + s);
    DigitsOfDecimal(b, "." + t);
    assert ("." + s)[1..] == s && ("." + t)[1..] == t;
  }

  /** Comparing the texts of two NSAPs compares the NSAPs. */
  lemma NsapTextsCompare(m: Nsap, n: Nsap)
    ensures NsapText(m) == NsapText(n) <==> m == n
  {
    if NsapText(m) == NsapText(n) {
      var m3, n3 := Decimal(m.a3), Decimal(n.a3);
      var m2, n2 := Decimal(m.a2) + ("." + m3), Decimal(n.a2) + ("." + n3);
      var m1, n1 := Decimal(m.a1) + ("." + m2), Decimal(n.a1) + ("." + n2);
      DecimalThenPoint(m.a0, m1, n.a0, n1);
      DecimalThenPoint(m.a1, m2, n.a1, n2);
      DecimalThenPoint(m.a2, m3, n.a2, n3);
      PlainAlone(m.a3);
      PlainAlone(n.a3);
    }
  }
}
