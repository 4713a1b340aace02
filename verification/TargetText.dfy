/** The text of a block target: dotted-quad addresses and CIDRs, printed and parsed; and searching
    in texts. */
module TargetText {
  import opened Ipv4

  datatype Option<+T> = None | Some(value: T)

  predicate IsDigit(c: char) { '0' <= c <= '9' }

  function DigitValue(c: char): nat
    requires IsDigit(c)
  {
    c as int - '0' as int
  }

  function Digit(d: nat): char
    requires d < 10
  {
    '0' + d as char
  }

  /** Decimal print without leading zeros. */
  function Decimal(n: nat): string {
    if n < 10 then [Digit(n)] else Decimal(n / 10) + [Digit(n % 10)]
  }

  function Quad(b3: nat, b2: nat, b1: nat, b0: nat): string {
    Decimal(b3) + ("." + (Decimal(b2) + ("." + (Decimal(b1) + ("." + Decimal(b0))))))
  }

  function FormatAddr(a: Addr): string {
    Quad(a / 0x100_0000, a / 0x1_0000 % 0x100, a / 0x100 % 0x100, a % 0x100)
  }

  function Format(t: Target): string {
    match t
    case Host(a) => FormatAddr(a)
    case Cidr(a, len) => FormatAddr(a) + "/" + Decimal(len)
  }

  /** The scan of net.ParseIP over a dotted quad: `fields` are the finished octets (as one
      number, `count` of them), `val` and `digits` the octet being read. Leading zeros,
      empty octets, octets over 255 and a wrong number of octets are errors. */
  function ScanAddr(s: string, count: nat, fields: nat, val: nat, digits: nat): Option<nat>
    decreases |s|
  {
    if s == "" then
      if count == 3 && digits > 0 then Some(fields * 0x100 + val) else None
    else if IsDigit(s[0]) then
      if digits == 1 && val == 0 then None
      else
        var v := val * 10 + DigitValue(s[0]);
        if v > 255 then None else ScanAddr(s[1..], count, fields, v, digits + 1)
    else if s[0] == '.' then
      if digits == 0 || count == 3 then None
      else ScanAddr(s[1..], count + 1, fields * 0x100 + val, 0, 0)
    else None
  }

  function ParseAddr(s: string): Option<Addr> {
    match ScanAddr(s, 0, 0, 0, 0)
    case Some(n) => if n < 0x1_0000_0000 then Some(n) else None
    case None => None
  }

  /** The mask digits of net.ParseCIDR (leading zeros are accepted). */
  function ScanMask(s: string, val: nat): Option<nat>
    decreases |s|
  {
    if s == "" then Some(val)
    else if !IsDigit(s[0]) then None
    else
      var v := val * 10 + DigitValue(s[0]);
      if v >= 0xFF_FFFF then None else ScanMask(s[1..], v)
  }

  function IndexOf(s: string, c: char): (r: Option<nat>)
    ensures r.Some? ==> r.value < |s| && s[r.value] == c && c !in s[..r.value]
    ensures r.None? <==> c !in s
  {
    if s == "" then None
    else if s[0] == c then Some(0)
    else
      match IndexOf(s[1..], c)
      case Some(i) => assert s[..i + 1] == [s[0]] + s[1..][..i]; Some(i + 1)
      case None => None
  }

  predicate OccursAt(s: string, pat: string, i: nat) {
    i + |pat| <= |s| && s[i..i + |pat|] == pat
  }

  /** strings.Index */
  function Find(s: string, pat: string): (r: Option<nat>)
    ensures r.Some? ==> OccursAt(s, pat, r.value)
    ensures r.Some? ==> forall i: nat :: i < r.value ==> !OccursAt(s, pat, i)
    ensures r.None? ==> forall i: nat :: !OccursAt(s, pat, i)
  {
    FindFrom(s, pat, 0)
  }

  function FindFrom(s: string, pat: string, from: nat): (r: Option<nat>)
    ensures r.Some? ==> from <= r.value && OccursAt(s, pat, r.value)
    ensures r.Some? ==> forall i: nat :: from <= i < r.value ==> !OccursAt(s, pat, i)
    ensures r.None? ==> forall i: nat :: from <= i ==> !OccursAt(s, pat, i)
    decreases |s| - from
  {
    if from + |pat| > |s| then None
    else if OccursAt(s, pat, from) then Some(from)
    else if from == |s| then None
    else FindFrom(s, pat, from + 1)
  }

  function ParseTarget(s: string): Option<Target> {
    match IndexOf(s, '/')
    case None =>
      (match ParseAddr(s)
       case Some(a) => Some(Host(a))
       case None => None)
    case Some(i) =>
      match (ParseAddr(s[..i]), ScanMask(s[i + 1..], 0))
      case (Some(a), Some(len)) => if i + 1 < |s| && len <= 32 then Some(Cidr(a, len)) else None
      case _ => None
  }

  predicate ValidBlockTarget(s: string) { ParseTarget(s).Some? }

  // ---- parsing what was printed ----

  predicate TargetChar(c: char) { IsDigit(c) || c == '.' || c == '/' }

  lemma {:induction false} DecimalDigits(n: nat)
    ensures |Decimal(n)| >= 1 && forall c <- Decimal(n) :: IsDigit(c)
  {
    if n >= 10 { DecimalDigits(n / 10); }
  }

  /** A printed number below 1000, digit by digit. */
  lemma SmallDecimal(n: nat)
    ensures n < 10 ==> Decimal(n) == [Digit(n)]
    ensures 10 <= n < 100 ==> Decimal(n) == [Digit(n / 10), Digit(n % 10)]
    ensures 100 <= n < 1000 ==> Decimal(n) == [Digit(n / 10 / 10), Digit(n / 10 % 10), Digit(n % 10)]
  {
    if 100 <= n < 1000 {
      assert Decimal(n / 10) == [Digit(n / 10 / 10)] + [Digit(n / 10 % 10)];
    }
  }

  /** Reading a printed octet leaves its value and continues behind it. */
  lemma ScanOctet(n: nat, rest: string, count: nat, fields: nat) returns (d: nat)
    requires n < 256
    ensures d > 0 && ScanAddr(Decimal(n) + rest, count, fields, 0, 0) == ScanAddr(rest, count, fields, n, d)
  {
    SmallDecimal(n);
    d := |Decimal(n)|;
    var r1 := [Digit(n % 10)] + rest;
    if n < 10 {
      ScanDigit(n, rest, count, fields, 0, 0);
    } else if n < 100 {
      assert Decimal(n) + rest == [Digit(n / 10)] + r1;
      ScanDigit(n / 10, r1, count, fields, 0, 0);
      ScanDigit(n % 10, rest, count, fields, n / 10, 1);
    } else {
      var r2 := [Digit(n / 10 % 10)] + r1;
      assert Decimal(n) + rest == [Digit(n / 10 / 10)] + r2;
      ScanDigit(n / 10 / 10, r2, count, fields, 0, 0);
      ScanDigit(n / 10 % 10, r1, count, fields, n / 10 / 10, 1);
      ScanDigit(n % 10, rest, count, fields, n / 10, 2);
    }
  }

  lemma ScanDigit(d: nat, rest: string, count: nat, fields: nat, val: nat, digits: nat)
    requires d < 10 && val * 10 + d < 256 && !(digits == 1 && val == 0)
    ensures ScanAddr([Digit(d)] + rest, count, fields, val, digits)
         == ScanAddr(rest, count, fields, val * 10 + d, digits + 1)
  {
    assert ([Digit(d)] + rest)[1..] == rest;
  }

  lemma ScanField(n: nat, rest: string, count: nat, fields: nat)
    requires n < 256 && count < 3
    ensures ScanAddr(Decimal(n) + ("." + rest), count, fields, 0, 0)
         == ScanAddr(rest, count + 1, fields * 0x100 + n, 0, 0)
  {
    var d := ScanOctet(n, "." + rest, count, fields);
    assert ("." + rest)[1..] == rest;
  }

  lemma ScanQuad(b3: nat, b2: nat, b1: nat, b0: nat)
    requires b3 < 256 && b2 < 256 && b1 < 256 && b0 < 256
    ensures ScanAddr(Quad(b3, b2, b1, b0), 0, 0, 0, 0)
         == Some(((b3 * 0x100 + b2) * 0x100 + b1) * 0x100 + b0)
  {
    var r0 := Decimal(b0);
    var r1 := Decimal(b1) + ("." + r0);
    var r2 := Decimal(b2) + ("." + r1);
    ScanField(b3, r2, 0, 0);
    ScanField(b2, r1, 1, b3);
    ScanField(b1, r0, 2, b3 * 0x100 + b2);
    ScanLast(b0, (b3 * 0x100 + b2) * 0x100 + b1);
  }

  lemma ScanLast(n: nat, fields: nat)
    requires n < 256
    ensures ScanAddr(Decimal(n), 3, fields, 0, 0)
         == Some(fields * 0x100 + n)
  {
    var d := ScanOctet(n, "", 3, fields);
    assert Decimal(n) + "" == Decimal(n);
  }

  lemma Octets(a: Addr)
    ensures a / 0x100_0000 < 256
    ensures ((a / 0x100_0000 * 0x100 + a / 0x1_0000 % 0x100) * 0x100 + a / 0x100 % 0x100) * 0x100 + a % 0x100
         == a
  {
    assert a / 0x100 / 0x100 == a / 0x1_0000;
    assert a / 0x1_0000 / 0x100 == a / 0x100_0000;
  }

  lemma ParsePrintedAddr(a: Addr)
    ensures ParseAddr(FormatAddr(a))
         == Some(a)
  {
    var b3, b2, b1, b0 := a / 0x100_0000, a / 0x1_0000 % 0x100, a / 0x100 % 0x100, a % 0x100;
    Octets(a);
    ScanQuad(b3, b2, b1, b0);
  }

  lemma ScanPrintedMask(len: nat)
    requires len <= 32
    ensures ScanMask(Decimal(len), 0)
         == Some(len)
  {
    SmallDecimal(len);
    var s := Decimal(len);
    if len >= 10 {
      assert s[1..] == [Digit(len % 10)];
      assert s[1..][1..] == "";
      assert DigitValue(s[0]) == len / 10 && DigitValue(s[1..][0]) == len % 10;
      assert ScanMask(s, 0) == ScanMask(s[1..], len / 10) == ScanMask("", len);
    }
  }

  lemma {:induction false} IndexOfFirst(s: string, c: char, k: nat)
    requires k < |s| && s[k] == c && c !in s[..k]
    ensures IndexOf(s, c) == Some(k)
  {
    if k > 0 {
      assert s[..k][0] == s[0];
      assert s[1..][..k - 1] == s[..k][1..];
      IndexOfFirst(s[1..], c, k - 1);
    }
  }

  lemma AddrChars(a: Addr)
    ensures |FormatAddr(a)| >= 1 && forall c <- FormatAddr(a) :: IsDigit(c) || c == '.'
  {
    DecimalDigits(a / 0x100_0000);
    DecimalDigits(a / 0x1_0000 % 0x100);
    DecimalDigits(a / 0x100 % 0x100);
    DecimalDigits(a % 0x100);
  }

  lemma ParsePrinted(t: Target)
    ensures ParseTarget(Format(t)) == Some(t)
  {
    ParsePrintedAddr(t.addr);
    AddrChars(t.addr);
    var s, p := Format(t), FormatAddr(t.addr);
    if t.Cidr? {
      DecimalDigits(t.len);
      ScanPrintedMask(t.len);
      assert s[..|p|] == p && s[|p| + 1..] == Decimal(t.len);
      IndexOfFirst(s, '/', |p|);
    }
  }

  // ---- the characters of a valid text ----

  lemma {:induction false} ScanAddrChars(s: string, count: nat, fields: nat, val: nat, digits: nat)
    requires ScanAddr(s, count, fields, val, digits).Some?
    ensures forall c <- s :: TargetChar(c)
    decreases |s|
  {
    if s != "" {
      assert s == [s[0]] + s[1..];
      if IsDigit(s[0]) {
        ScanAddrChars(s[1..], count, fields, val * 10 + DigitValue(s[0]), digits + 1);
      } else {
        ScanAddrChars(s[1..], count + 1, fields * 0x100 + val, 0, 0);
      }
    }
  }

  lemma {:induction false} ScanMaskChars(s: string, val: nat)
    requires ScanMask(s, val).Some?
    ensures forall c <- s :: TargetChar(c)
    decreases |s|
  {
    if s != "" {
      assert s == [s[0]] + s[1..];
      ScanMaskChars(s[1..], val * 10 + DigitValue(s[0]));
    }
  }

  lemma ValidTargetChars(s: string)
    requires ValidBlockTarget(s)
    ensures s != "" && forall c <- s :: TargetChar(c)
  {
    match IndexOf(s, '/')
    case None => ScanAddrChars(s, 0, 0, 0, 0);
    case Some(i) =>
      ScanAddrChars(s[..i], 0, 0, 0, 0);
      ScanMaskChars(s[i + 1..], 0);
      assert s == s[..i] + [s[i]] + s[i + 1..];
  }
}
