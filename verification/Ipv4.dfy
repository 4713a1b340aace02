/** IPv4 block targets: a single address or a CIDR network, and the arithmetic the
    enforcer does on them (mask, canonical form, comparison key, private ranges).
    A network of prefix length `len` is named by the leading `len` bits of its addresses;
    masking an address keeps those bits and clears the rest. */
module Ipv4 {
  type Addr = a: int | 0 <= a < 0x1_0000_0000
  type PrefixLen = p: int | 0 <= p <= 32

  /** A valid target text, already parsed: "1.2.3.4" or "200.25.47.5/24". */
  datatype Target = Host(addr: Addr) | Cidr(addr: Addr, len: PrefixLen)

  /** The part of net.IPNet the agent uses: a masked base address and a prefix length. */
  datatype Net = Net(base: Addr, len: PrefixLen)

  /** x >> n */
  function Shr(x: nat, n: nat): nat
    decreases n
  {
    if n == 0 then x else Shr(x / 2, n - 1)
  }

  /** x << n */
  function Shl(x: nat, n: nat): nat
    decreases n
  {
    if n == 0 then x else Shl(2 * x, n - 1)
  }

  /** The leading `len` bits of an address. */
  function Prefix(ip: Addr, len: PrefixLen): nat { Shr(ip, 32 - len) }

  function MaskAddr(ip: Addr, len: PrefixLen): (r: Addr)
    ensures Prefix(r, len) == Prefix(ip, len) && r <= ip
  {
    ShrThenShl(ip, 32 - len);
    ShlThenShr(Prefix(ip, len), 32 - len);
    Shl(Prefix(ip, len), 32 - len)
  }

  /** net.IPNet.Contains */
  predicate Contains(n: Net, ip: Addr) { Prefix(ip, n.len) == Prefix(n.base, n.len) }

  /** The network half of net.ParseCIDR: the base address is masked. */
  function NetOf(t: Target): Net {
    match t
    case Host(a) => Net(a, 32)
    case Cidr(a, len) => Net(MaskAddr(a, len), len)
  }

  /** The addresses a target denotes. */
  predicate Covers(t: Target, ip: Addr) {
    match t
    case Host(a) => a == ip
    case Cidr(a, len) => Prefix(a, len) == Prefix(ip, len)
  }

  function Normalize(t: Target): Target {
    match t
    case Host(_) => t
    case Cidr(a, len) => Cidr(MaskAddr(a, len), len)
  }

  /** Comparison key: the canonical form with a trailing "/32" dropped. */
  function FwKey(t: Target): Target {
    var n := Normalize(t);
    if n.Cidr? && n.len == 32 then Host(n.addr) else n
  }

  /** RFC 1918 (section 3), loopback and link-local. */
  predicate InternalAddress(ip: Addr) {
    || Contains(Net(0x0A00_0000, 8), ip)
    || Contains(Net(0xAC10_0000, 12), ip)
    || Contains(Net(0xC0A8_0000, 16), ip)
    || Contains(Net(0x7F00_0000, 8), ip)
    || Contains(Net(0xA9FE_0000, 16), ip)
  }

  /** isPrivateIP: internal, or the unspecified address 0.0.0.0. */
  predicate IsPrivateIp(ip: Addr) { InternalAddress(ip) || ip == 0 }

  /** The check a block request has to pass: on the base of the canonical target. */
  predicate PassesPrivateCheck(t: Target) { !IsPrivateIp(Normalize(t).addr) }

  /** Some internal address is inside the target. */
  ghost predicate TouchesInternal(t: Target) { exists ip :: Covers(t, ip) && InternalAddress(ip) }

  ghost predicate SameAddresses(a: Target, b: Target) {
    forall ip :: Covers(a, ip) == Covers(b, ip)
  }

  // ---- shifts ----

  lemma {:induction false} ShrAdd(x: nat, m: nat, n: nat)
    ensures Shr(x, m + n) == Shr(Shr(x, m), n)
    decreases m
  {
    if m > 0 { ShrAdd(x / 2, m - 1, n); }
  }

  lemma {:induction false} ShlAdd(x: nat, m: nat, n: nat)
    ensures Shl(x, m + n) == Shl(Shl(x, m), n)
    decreases m
  {
    if m > 0 { ShlAdd(2 * x, m - 1, n); }
  }

  lemma {:induction false} ShlThenShr(q: nat, n: nat)
    ensures Shr(Shl(q, n), n) == q
    decreases n
  {
    if n > 0 {
      ShlThenShr(2 * q, n - 1);
      ShrAdd(Shl(q, n), n - 1, 1);
    }
  }

  lemma {:induction false} ShrThenShl(x: nat, n: nat)
    ensures Shl(Shr(x, n), n) <= x
    decreases n
  {
    if n > 0 {
      ShrThenShl(x / 2, n - 1);
      ShlAdd(Shr(x, n), n - 1, 1);
    }
  }

  lemma {:induction false} ShlStrict(x: nat, y: nat, n: nat)
    requires x < y
    ensures Shl(x, n) < Shl(y, n)
    decreases n
  {
    if n > 0 { ShlStrict(2 * x, 2 * y, n - 1); }
  }

  lemma {:induction false} ShrBelow(x: nat, b: nat, n: nat)
    requires x < Shl(b, n)
    ensures Shr(x, n) < b
    decreases n
  {
    if n > 0 {
      ShrBelow(x, 2 * b, n - 1);
      ShrAdd(x, n - 1, 1);
    }
  }

  lemma Nibble(x: nat)
    ensures Shl(x, 4) == 16 * x && Shr(x, 4) == x / 16
  {
    assert Shl(x, 4) == Shl(2 * x, 3) == Shl(4 * x, 2) == Shl(8 * x, 1);
    assert Shr(x, 4) == Shr(x / 2, 3) == Shr(x / 4, 2) == Shr(x / 8, 1);
  }

  lemma Octet(x: nat)
    ensures Shl(x, 8) == 0x100 * x && Shr(x, 8) == x / 0x100
  {
    Nibble(x);
    Nibble(16 * x);
    Nibble(x / 16);
    ShlAdd(x, 4, 4);
    ShrAdd(x, 4, 4);
  }

  lemma AddressSpace()
    ensures Shl(1, 32) == 0x1_0000_0000
  {
    Octet(1);
    Octet(0x100);
    Octet(0x1_0000);
    Octet(0x100_0000);
    ShlAdd(1, 8, 24);
    ShlAdd(0x100, 8, 16);
    ShlAdd(0x1_0000, 8, 8);
  }

  lemma PrefixBelow(ip: Addr, len: PrefixLen)
    ensures Prefix(ip, len) < Shl(1, len)
  {
    AddressSpace();
    ShlAdd(1, len, 32 - len);
    ShrBelow(ip, Shl(1, len), 32 - len);
  }

  // ---- properties ----

  lemma NormalizeSound(t: Target)
    ensures Normalize(Normalize(t))
         == Normalize(t)
    ensures SameAddresses(Normalize(t), t)
    ensures forall ip :: Contains(NetOf(t), ip) == Covers(t, ip)
  {
  }

  /** The neighbour of a longer prefix that starts like q, and still starts like q. */
  lemma Neighbour(q: nat, d: nat)
    requires d >= 1
    ensures Shr(Shl(q, d) + 1, d) == q && Shl(q, d) + 1 < Shl(q + 1, d)
  {
    ShlStrict(q, q + 1, d - 1);
    ShlAdd(q, d - 1, 1);
    ShlAdd(q + 1, d - 1, 1);
    ShlThenShr(q, d - 1);
    assert (Shl(q, d) + 1) / 2 == Shl(q, d - 1);
  }

  /** The shorter of two prefixes holds two addresses the longer one tells apart. */
  lemma ShorterPrefixIsLarger(base: Addr, len: PrefixLen, longer: PrefixLen)
    requires len < longer && MaskAddr(base, len) == base
    ensures exists ip: Addr :: Prefix(ip, len) == Prefix(base, len) && Prefix(ip, longer) != Prefix(base, longer)
  {
    var q, d, m := Prefix(base, len), longer - len, 32 - longer;
    var p := Shl(q, d);
    ShlAdd(q, d, m);
    ShlThenShr(p, m);
    Neighbour(q, d);
    PrefixBelow(base, len);
    NextBlockFits(q, p + 1, len, d, m);
    var ip := Shl(p + 1, m);
    ShlThenShr(p + 1, m);
    ShrAdd(ip, m, d);
    assert Prefix(base, longer) == p;
    assert Prefix(ip, longer) == p + 1 && Prefix(ip, len) == q;
  }

  lemma NextBlockFits(q: nat, p: nat, len: nat, d: nat, m: nat)
    requires len + d + m == 32 && q < Shl(1, len) && p < Shl(q + 1, d)
    ensures Shl(p, m) < 0x1_0000_0000
  {
    AddressSpace();
    ShlStrict(p, Shl(q + 1, d), m);
    ShlAdd(q + 1, d, m);
    ShlAdd(1, len, d + m);
    if q + 1 < Shl(1, len) { ShlStrict(q + 1, Shl(1, len), d + m); }
  }

  /** The reconciliation key identifies exactly the targets that denote the same addresses. */
  lemma FwKeyIffSameAddresses(a: Target, b: Target)
    ensures FwKey(a) == FwKey(b) <==> SameAddresses(a, b)
  {
    var x, y := NetOf(a), NetOf(b);
    NormalizeSound(a);
    NormalizeSound(b);
    assert FwKey(a) == FwKey(b) <==> x == y;
    if SameAddresses(a, b) {
      assert Covers(a, x.base) && Covers(b, y.base);
      if x.len < y.len {
        SameAddressesSameLength(a, b);
      } else if y.len < x.len {
        SameAddressesSameLength(b, a);
      }
      BaseFromPrefix(a);
      BaseFromPrefix(b);
    }
  }

  lemma BaseFromPrefix(t: Target)
    ensures NetOf(t).base == Shl(Prefix(NetOf(t).base, NetOf(t).len), 32 - NetOf(t).len)
  {
  }

  lemma SameAddressesSameLength(a: Target, b: Target)
    requires SameAddresses(a, b)
    ensures NetOf(a).len >= NetOf(b).len
  {
    var x, y := NetOf(a), NetOf(b);
    if x.len < y.len {
      ShorterPrefixIsLarger(x.base, x.len, y.len);
      var ip: Addr :| Prefix(ip, x.len) == Prefix(x.base, x.len) && Prefix(ip, y.len) != Prefix(x.base, y.len);
      assert Contains(x, ip) && Contains(x, x.base);
      assert Covers(a, ip) && Covers(a, x.base);
    }
  }

  /** Shifts by 16 bits or more only see the leading 16 bits. */
  function Top(ip: Addr): nat { ip / 0x1_0000 }

  lemma TopBits(ip: Addr)
    ensures Shr(ip, 16) == Top(ip)
    ensures Shr(ip, 20) == Top(ip) / 0x10
    ensures Shr(ip, 24) == Top(ip) / 0x100
  {
    hide Shr;
    Octet(ip);
    Octet(ip / 0x100);
    Nibble(ip / 0x1_0000);
    Octet(ip / 0x1_0000);
    ShrAdd(ip, 8, 8);
    ShrAdd(ip, 16, 4);
    ShrAdd(ip, 16, 8);
  }

  /** Internal addresses by their leading 16 bits. */
  predicate InternalTop(top: nat) {
    || 0x0A00 <= top < 0x0B00
    || 0xAC10 <= top < 0xAC20
    || top == 0xC0A8
    || 0x7F00 <= top < 0x8000
    || top == 0xA9FE
  }

  lemma RangeByTop(base: Addr, len: PrefixLen, ip: Addr)
    requires len in {8, 12, 16}
    ensures Contains(Net(base, len), ip) <==>
            (if len == 8 then Top(ip) / 0x100 == Top(base) / 0x100
             else if len == 12 then Top(ip) / 0x10 == Top(base) / 0x10
             else Top(ip) == Top(base))
  {
    TopBits(ip);
    TopBits(base);
  }

  lemma InternalByTop(ip: Addr)
    ensures InternalAddress(ip) <==> InternalTop(Top(ip))
  {
    hide Contains;
    RangeByTop(0x0A00_0000, 8, ip);
    RangeByTop(0xAC10_0000, 12, ip);
    RangeByTop(0xC0A8_0000, 16, ip);
    RangeByTop(0x7F00_0000, 8, ip);
    RangeByTop(0xA9FE_0000, 16, ip);
  }

  /** The leading 16 bits of the base of a block of 17 host bits or fewer. */
  lemma BlockTop(ip: Addr, len: PrefixLen)
    requires len >= 15
    ensures Top(MaskAddr(ip, len)) == if len == 15 then 2 * (Top(ip) / 2) else Top(ip)
  {
    var m := 32 - len;
    TopBits(ip);
    TopBits(MaskAddr(ip, len));
    if len == 15 {
      ShrAdd(ip, 16, 1);
      ShlAdd(Shr(ip, 17), 1, 16);
      ShlThenShr(2 * Shr(ip, 17), 16);
    } else {
      ShrAdd(ip, m, 16 - m);
      ShrAdd(MaskAddr(ip, len), m, 16 - m);
    }
  }

  predicate PrivateByTop(ip: Addr) { InternalTop(Top(ip)) || ip == 0 }

  lemma BlockOfPrivate(ip: Addr, len: PrefixLen)
    requires len >= 15 || len == 0
    requires PrivateByTop(ip)
    ensures PrivateByTop(MaskAddr(ip, len))
  {
    if len == 0 {
      PrefixBelow(ip, 0);
      PrefixBelow(0, 0);
      ShrThenShl(0, 32);
    } else {
      BlockTop(ip, len);
    }
  }

  /** With no prefix, one of 15 bits or more, or "/0", the check on the base address is
      enough: nothing internal is inside the target. */
  lemma PrivateCheckSuffices(t: Target, ip: Addr)
    requires t.Host? || t.len >= 15 || t.len == 0
    requires PassesPrivateCheck(t) && Covers(t, ip)
    ensures !IsPrivateIp(ip)
  {
    var base := Normalize(t).addr;
    InternalByTop(base);
    InternalByTop(ip);
    if t.Cidr? {
      assert base == MaskAddr(ip, t.len);
      if PrivateByTop(ip) { BlockOfPrivate(ip, t.len); }
    }
  }

  /** For every other prefix length a target passes the check although 169.254.0.0 is in it. */
  lemma PrivateCheckMisses(len: PrefixLen)
    requires 1 <= len < 15
    ensures PassesPrivateCheck(Cidr(0xA9FE_0000, len)) && TouchesInternal(Cidr(0xA9FE_0000, len))
  {
    var ip := 0xA9FE_0000;
    InternalByTop(ip);
    assert Covers(Cidr(ip, len), ip);
    var base := MaskAddr(ip, len);
    InternalByTop(base);
    ShortBlockBase(len);
  }

  /** The base of a short block that holds 169.254.0.0, by its leading 16 bits. */
  lemma ShortBlockBase(len: PrefixLen)
    requires 1 <= len < 15
    ensures !InternalTop(Top(MaskAddr(0xA9FE_0000, len))) && MaskAddr(0xA9FE_0000, len) != 0
  {
    hide MaskAddr;
    BaseBelow(len);
    BaseNotBelow(len);
  }

  /** The mask clears bit 17, which is set in 169.254.0.0: the base is smaller, by at least 2 in
      the leading 16 bits. */
  lemma BaseBelow(len: PrefixLen)
    requires 1 <= len < 15
    ensures Top(MaskAddr(0xA9FE_0000, len)) < 0xA9FD
  {
    var q, m := Prefix(0xA9FE_0000, len), 32 - len;
    ShlAdd(q, m - 18, 18);
    Shl18(Shl(q, m - 18));
    hide Prefix, Shl;
    assert MaskAddr(0xA9FE_0000, len) == 0x4_0000 * Shl(q, m - 18) <= 0xA9FE_0000;
  }

  /** The leading bit stays. */
  lemma BaseNotBelow(len: PrefixLen)
    requires 1 <= len < 15
    ensures Top(MaskAddr(0xA9FE_0000, len)) >= 0x8000
  {
    var base := MaskAddr(0xA9FE_0000, len);
    ShrAdd(0xA9FE_0000, 32 - len, len - 1);
    ShrAdd(base, 32 - len, len - 1);
    hide MaskAddr, Shr;
    Shr31(0xA9FE_0000);
    Shr31(base);
  }

  lemma Shl18(k: nat)
    ensures Shl(k, 18) == 0x4_0000 * k
  {
    Octet(k);
    Octet(0x100 * k);
    ShlAdd(k, 8, 10);
    ShlAdd(0x100 * k, 8, 2);
    assert Shl(0x1_0000 * k, 2) == Shl(0x2_0000 * k, 1);
  }

  lemma Shr31(x: Addr)
    ensures Shr(x, 31) == x / 0x8000_0000
  {
    TopBits(x);
    ShrAdd(x, 24, 7);
    ShrAdd(Shr(x, 24), 4, 3);
    Nibble(Shr(x, 24));
    Eighth(Shr(x, 24) / 16);
    hide Shr;
  }

  lemma Eighth(x: nat)
    ensures Shr(x, 3) == x / 8
  {
    assert Shr(x, 3) == Shr(x / 2, 2) == Shr(x / 4, 1);
  }

  ghost predicate CheckIsSafeFor(len: PrefixLen) {
    forall a: Addr :: PassesPrivateCheck(Cidr(a, len)) ==> !TouchesInternal(Cidr(a, len))
  }

  /** The base-address check is sound for exactly these prefix lengths. */
  lemma PrivateCheckExact(len: PrefixLen)
    ensures CheckIsSafeFor(len) <==> len >= 15 || len == 0
  {
    if len >= 15 || len == 0 {
      forall a: Addr, ip | PassesPrivateCheck(Cidr(a, len)) && Covers(Cidr(a, len), ip)
        ensures !InternalAddress(ip)
      {
        PrivateCheckSuffices(Cidr(a, len), ip);
      }
    } else {
      PrivateCheckMisses(len);
    }
  }

  predicate InternalNet(n: Net) {
    n in [Net(0x0A00_0000, 8), Net(0xAC10_0000, 12), Net(0xC0A8_0000, 16), Net(0x7F00_0000, 8), Net(0xA9FE_0000, 16)]
  }

  /** A longer prefix decides a shorter one. */
  lemma PrefixShortened(a: Addr, b: Addr, len: PrefixLen, longer: PrefixLen)
    requires len <= longer && Prefix(a, longer) == Prefix(b, longer)
    ensures Prefix(a, len) == Prefix(b, len)
  {
    ShrAdd(a, 32 - longer, longer - len);
    ShrAdd(b, 32 - longer, longer - len);
  }

  /** Target by target: one that passes the check touches an internal range if and only if it
      covers the range's first address, which it then contains as a whole. */
  lemma PassingTouchesExactly(t: Target)
    requires PassesPrivateCheck(t)
    ensures TouchesInternal(t) <==> exists n :: InternalNet(n) && Covers(t, n.base)
  {
    hide Prefix;
    var base := Normalize(t).addr;
    if ip :| Covers(t, ip) && InternalAddress(ip) {
      var n :| InternalNet(n) && Contains(n, ip);
      CoveredTogether(t, n, ip);
    }
    forall n | InternalNet(n) ensures InternalAddress(n.base) {
      assert Contains(n, n.base);
    }
  }

  lemma CoveredTogether(t: Target, n: Net, ip: Addr)
    requires PassesPrivateCheck(t) && InternalNet(n) && Covers(t, ip) && Contains(n, ip)
    ensures Covers(t, n.base)
  {
    hide Prefix, MaskAddr;
    var base := Normalize(t).addr;
    var len := if t.Cidr? then t.len else 32;
    MaskKeepsPrefix(t);
    if len >= n.len {
      PrefixShortened(ip, base, n.len, len);
    } else {
      PrefixShortened(ip, n.base, len, n.len);
    }
  }

  lemma MaskKeepsPrefix(t: Target)
    ensures t.Cidr? ==> Prefix(Normalize(t).addr, t.len) == Prefix(t.addr, t.len)
  {
  }
}
