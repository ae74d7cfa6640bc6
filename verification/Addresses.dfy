/** Addresses as Go's `net` package holds them, the map keys derived from them, and address prefixes. */
module Addresses {

  type Byte = x: int | 0 <= x < 256

  /** A `net.IP`: raw bytes, of any length; `[]` is nil. */
  type IP = seq<Byte>

  datatype Option<+T> = None | Some(value: T)

  const V4_IN_V6: IP := [0, 0, 0, 0, 0, 0, 0, 0, 0, 0, 255, 255]

  predicate Valid(ip: IP) {
    |ip| == 4 || |ip| == 16
  }

  predicate Mapped(ip: IP) {
    |ip| == 16 && ip[10] == 255 && ip[11] == 255 && forall i | 0 <= i < 10 :: ip[i] == 0
  }

  /** The shortest form of an address; distinct addresses have distinct shortest forms. */
  predicate Canonical(ip: IP) {
    Valid(ip) && !Mapped(ip)
  }

  type Address = ip: IP | Canonical(ip) witness [0, 0, 0, 0]

  function To4(ip: IP): Option<IP> {
    if |ip| == 4 then Some(ip) else if Mapped(ip) then Some(ip[12..]) else None
  }

  function To16(ip: IP): Option<IP> {
    if |ip| == 4 then Some(V4_IN_V6 + ip) else if |ip| == 16 then Some(ip) else None
  }

  function Canon(ip: IP): Address
    requires Valid(ip)
  {
    if Mapped(ip) then ip[12..] else ip
  }

  /** `IP.IsLoopback`: 127.0.0.0/8, or ::1. */
  predicate IsLoopback(ip: IP) {
    match To4(ip)
    case Some(v4) => v4[0] == 127
    case None => |ip| == 16 && ip[15] == 1 && forall i | 0 <= i < 15 :: ip[i] == 0
  }

  /** The text form of an address. `IP.String` of an address is `Of` its shortest form, so texts are equal exactly
      when addresses are; every other text (an unparsable row, "<nil>") is `Other`. */
  datatype Text = Of(addr: Address) | Other(spelling: string)

  function String(ip: IP): Text {
    if Valid(ip) then Of(Canon(ip)) else Other(if ip == [] then "<nil>" else "?")
  }

  /** `net.ParseIP` returns the 16-byte form, or nil. */
  function ParseIP(t: Text): IP {
    match t
    case Of(a) => To16(a).value
    case Other(_) => []
  }

  function V4Key(ip: IP): Option<IP> {
    To4(ip)
  }

  function V6Key(ip: IP): Option<IP> {
    if To4(ip).Some? then None else To16(ip)
  }

  /** The two key functions route each address to one family and lose nothing: at most one of them answers, one
      does exactly for a well-formed address, the key is the shortest form, and printing then parsing an address
      (as every stored row and every listed map entry is) leaves both keys unchanged. */
  lemma KeysRouteEachAddressOnce(ip: IP)
    ensures V4Key(ip).None? || V6Key(ip).None?
    ensures Valid(ip) <==> V4Key(ip).Some? || V6Key(ip).Some?
    ensures V4Key(ip).Some? ==> |V4Key(ip).value| == 4 && V4Key(ip).value == Canon(ip)
    ensures V6Key(ip).Some? ==> |V6Key(ip).value| == 16 && !Mapped(V6Key(ip).value) && V6Key(ip).value == Canon(ip)
    ensures V4Key(ParseIP(String(ip))) == V4Key(ip) && V6Key(ParseIP(String(ip))) == V6Key(ip)
  {
    if Valid(ip) {
      ParsePrint(ip);
    }
  }

  /** Printing and parsing keep the address. */
  lemma ParsePrint(ip: IP)
    requires Valid(ip)
    ensures Valid(ParseIP(String(ip))) && Canon(ParseIP(String(ip))) == Canon(ip)
    ensures String(ParseIP(String(ip))) == String(ip)
    ensures To4(ParseIP(String(ip))) == To4(ip)
    ensures To4(ip).None? ==> ParseIP(String(ip)) == ip
  {
    var c := Canon(ip);
    if |c| == 4 {
      assert forall i | 0 <= i < 12 :: (V4_IN_V6 + c)[i] == V4_IN_V6[i];
      assert (V4_IN_V6 + c)[12..] == c;
    }
  }

  // ---- prefixes ----

  /** A `net.IPNet` whose mask is the first `ones` bits of an address as long as `ip`. */
  datatype IPNet = IPNet(ip: IP, ones: nat)

  predicate ValidNet(n: IPNet) {
    Valid(n.ip) && n.ones <= 8 * |n.ip|
  }

  function Pow2(k: nat): nat
    requires k <= 8
  {
    [1, 2, 4, 8, 16, 32, 64, 128, 256][k]
  }

  /** How many bits of byte `i` a mask of `ones` bits keeps. */
  function Keep(ones: int, i: nat): (k: nat)
    ensures k <= 8
  {
    if ones <= 8 * i then 0 else if ones >= 8 * i + 8 then 8 else ones - 8 * i
  }

  function MaskByte(b: Byte, keep: nat): Byte
    requires keep <= 8
  {
    b - b % Pow2(8 - keep)
  }

  function Mask(ip: IP, ones: int): IP {
    seq(|ip|, i requires 0 <= i < |ip| => MaskByte(ip[i], Keep(ones, i)))
  }

  function Short(ip: IP): IP {
    if To4(ip).Some? then To4(ip).value else ip
  }

  /** `IPNet.Contains`: both sides in shortest form, lengths equal, masked bytes equal. */
  predicate Contains(n: IPNet, ip: IP) {
    var base := Short(n.ip);
    var ones := if |n.ip| == 16 && |base| == 4 then n.ones - 96 else n.ones;
    |Short(ip)| == |base| && Mask(Short(ip), ones) == Mask(base, ones)
  }

  /** Bit `j` of an address, most significant first. */
  function Bit(ip: IP, j: nat): nat
    requires j < 8 * |ip|
  {
    ByteBit(ip[j / 8], j % 8)
  }

  function ByteBit(b: Byte, j: nat): nat
    requires j < 8
  {
    b / Pow2(7 - j) % 2
  }

  lemma {:induction false} MaskedEqualIffBitsEqual(a: Byte, b: Byte, k: nat)
    requires k <= 8
    ensures MaskByte(a, k) == MaskByte(b, k) <==> forall j | 0 <= j < k :: ByteBit(a, j) == ByteBit(b, j)
  {
    if k > 0 {
      MaskedEqualIffBitsEqual(a, b, k - 1);
      HalveStep(a, k);
      HalveStep(b, k);
      SplitsUniquely(MaskByte(a, k - 1), ByteBit(a, k - 1), MaskByte(b, k - 1), ByteBit(b, k - 1), Pow2(8 - k));
      assert MaskByte(a, k) == MaskByte(b, k) <==>
             MaskByte(a, k - 1) == MaskByte(b, k - 1) && ByteBit(a, k - 1) == ByteBit(b, k - 1);
    }
  }

  /** One more kept bit splits a masked byte into the shorter mask and that bit. */
  lemma HalveStep(a: Byte, k: nat)
    requires 0 < k <= 8
    ensures MaskByte(a, k) == MaskByte(a, k - 1) + Pow2(8 - k) * ByteBit(a, k - 1)
    ensures MaskByte(a, k - 1) % (2 * Pow2(8 - k)) == 0
    ensures 0 <= ByteBit(a, k - 1) <= 1
  {
    var p := Pow2(8 - k);
    assert Pow2(9 - k) == 2 * p && Pow2(7 - (k - 1)) == p;
    Halve(a, p);
  }

  lemma SplitsUniquely(m: int, x: int, n: int, y: int, p: int)
    requires 0 < p && m % (2 * p) == 0 && n % (2 * p) == 0 && 0 <= x <= 1 && 0 <= y <= 1
    ensures m + p * x == n + p * y <==> m == n && x == y
  {
    var t := m / (2 * p) - n / (2 * p);
    assert m - n == 2 * (p * t);
    assert t >= 1 ==> p * t >= p;
    assert t <= -1 ==> p * t <= -p;
  }

  lemma Halve(a: nat, p: nat)
    requires 0 < p
    ensures a - a % p == a - a % (2 * p) + p * (a / p % 2)
    ensures (a - a % (2 * p)) % (2 * p) == 0
  {
    var h, r := a / (2 * p), a % (2 * p);
    var t := if r < p then 0 else 1;
    assert a == 2 * p * h + r;
    assert a == p * (2 * h + t) + (r - p * t);
    DivModUnique(a, p, 2 * h + t, r - p * t);
    DivModUnique(a - r, 2 * p, h, 0);
  }

  lemma DivModUnique(a: int, d: int, q: int, r: int)
    requires 0 <= r < d && a == d * q + r
    ensures a / d == q && a % d == r
  {
    var k := q - a / d;
    assert k >= 1 ==> d * k >= d;
    assert k <= -1 ==> d * k <= -d;
    assert d * k == a % d - r;
  }

  lemma MaskEqualIffPrefixBitsAgree(x: IP, y: IP, ones: int)
    requires |x| == |y| && ones <= 8 * |x|
    ensures Mask(x, ones) == Mask(y, ones) <==> forall j | 0 <= j < ones :: Bit(x, j) == Bit(y, j)
  {
    forall i | 0 <= i < |x|
      ensures Mask(x, ones)[i] == Mask(y, ones)[i] <==>
              forall j | 0 <= j < Keep(ones, i) :: ByteBit(y[i], j) == ByteBit(x[i], j)
    {
      MaskedEqualIffBitsEqual(y[i], x[i], Keep(ones, i));
    }
    if Mask(x, ones) == Mask(y, ones) {
      forall j | 0 <= j < ones
        ensures Bit(x, j) == Bit(y, j)
      {
        assert Mask(x, ones)[j / 8] == Mask(y, ones)[j / 8];
        assert ByteBit(y[j / 8], j % 8) == ByteBit(x[j / 8], j % 8);
      }
    } else {
      var i :| 0 <= i < |x| && Mask(x, ones)[i] != Mask(y, ones)[i];
      var j :| 0 <= j < Keep(ones, i) && ByteBit(y[i], j) != ByteBit(x[i], j);
      assert (8 * i + j) / 8 == i && (8 * i + j) % 8 == j;
      assert Bit(x, 8 * i + j) != Bit(y, 8 * i + j);
    }
  }

  /** Section 3.1 of RFC 4632: a prefix of length n covers exactly the addresses of its family that agree with it
      on the first n bits. A prefix in IPv4-mapped colon form covers IPv4 addresses, by its bits from the 96th on. */
  lemma ContainsIffPrefixBitsAgree(n: IPNet, x: Address)
    requires ValidNet(n)
    ensures !Mapped(n.ip) ==>
              (Contains(n, x) <==> |x| == |n.ip| && forall j | 0 <= j < n.ones :: Bit(x, j) == Bit(n.ip, j))
    ensures Mapped(n.ip) ==>
              (Contains(n, x) <==> |x| == 4 && forall j | 0 <= j < n.ones - 96 :: Bit(x, j) == Bit(n.ip[12..], j))
  {
    assert Short(x) == x;
    if |x| == |Short(n.ip)| {
      MaskEqualIffPrefixBitsAgree(x, Short(n.ip), if Mapped(n.ip) then n.ones - 96 else n.ones);
    }
  }

  // ---- whitelist entry texts ----

  /** The text of a whitelist entry: what was typed (4 bytes for a dotted quad, 16 for colon form), the prefix length
      of a CIDR, and whatever else tells two spellings of the same thing apart. */
  datatype Entry =
    | Bare(lit: IP, spelling: string)
    | Cidr(lit: IP, ones: nat, spelling: string)
    | Junk(spelling: string)

  predicate ValidEntry(e: Entry) {
    match e
    case Bare(lit, _) => Valid(lit)
    case Cidr(lit, ones, _) => Valid(lit) && ones <= 8 * |lit|
    case Junk(_) => false
  }

  /** What `parseCIDR` makes of an entry: the suffix for a bare address is chosen by `To4`, the mask length by how
      the address was typed. */
  function ParseCIDR(e: Entry): IPNet
    requires ValidEntry(e)
  {
    match e
    case Bare(lit, _) =>
      var ones := if To4(lit).Some? then 32 else 128;
      IPNet(Mask(lit, ones), ones)
    case Cidr(lit, ones, _) => IPNet(Mask(lit, ones), ones)
  }

  /** A bare IPv4-mapped address typed in colon form. */
  predicate MappedBare(e: Entry) {
    e.Bare? && Mapped(e.lit)
  }

  /** A bare entry covers exactly the one address it names, unless it is an IPv4-mapped address in colon form: that
      one becomes `::/32`, which covers no IPv4 address at all and every IPv6 address whose first 32 bits are zero. */
  lemma BareEntryCovers(e: Entry, x: Address)
    requires ValidEntry(e) && e.Bare?
    ensures !MappedBare(e) ==> (Contains(ParseCIDR(e), x) <==> x == Canon(e.lit))
    ensures MappedBare(e) ==> (Contains(ParseCIDR(e), x) <==> |x| == 16 && x[..4] == [0, 0, 0, 0])
  {
    if MappedBare(e) {
      MappedBareCovers(e, x);
    } else {
      ExactBareCovers(e, x);
    }
  }

  lemma MaskTwice(ip: IP, ones: int)
    ensures Mask(Mask(ip, ones), ones) == Mask(ip, ones)
  {
    forall i | 0 <= i < |ip|
      ensures MaskByte(Mask(ip, ones)[i], Keep(ones, i)) == Mask(ip, ones)[i]
    {
      var p := Pow2(8 - Keep(ones, i));
      DivModUnique(ip[i] - ip[i] % p, p, ip[i] / p, 0);
    }
  }

  /** Masking makes nothing IPv4-mapped, and takes an IPv4-mapped address apart exactly when it cuts into its first 96
      bits. */
  lemma MaskedIsMapped(ip: IP, ones: nat)
    requires |ip| == 16
    ensures Mapped(Mask(ip, ones)) <==> Mapped(ip) && ones >= 96
  {
    var masked := Mask(ip, ones);
    assert ones >= 96 ==> forall i | 0 <= i < 12 :: masked[i] == ip[i];
    assert ones < 96 ==> masked[11] == MaskByte(ip[11], Keep(ones, 11)) && masked[11] % 2 == 0;
  }

  /** What a CIDR entry covers: the addresses of its family that agree with the typed one on the leading bits. An
      IPv4-mapped address in colon form counts as IPv4, by its bits from the 96th on, when the prefix is at least that
      long, and as IPv6 otherwise. */
  lemma CidrEntryCovers(e: Entry, x: Address)
    requires ValidEntry(e) && e.Cidr?
    ensures !Mapped(e.lit) || e.ones < 96 ==>
              (Contains(ParseCIDR(e), x) <==>
               |x| == |e.lit| && forall j | 0 <= j < e.ones :: Bit(x, j) == Bit(e.lit, j))
    ensures Mapped(e.lit) && e.ones >= 96 ==>
              (Contains(ParseCIDR(e), x) <==>
               |x| == 4 && forall j | 0 <= j < e.ones - 96 :: Bit(x, j) == Bit(e.lit[12..], j))
  {
    var base := Mask(e.lit, e.ones);
    assert Short(x) == x;
    if |e.lit| == 16 {
      MaskedIsMapped(e.lit, e.ones);
    }
    if Mapped(base) {
      var low := e.lit[12..];
      assert base[12..] == Mask(low, e.ones - 96);
      MaskTwice(low, e.ones - 96);
      if |x| == 4 {
        MaskEqualIffPrefixBitsAgree(x, low, e.ones - 96);
      }
    } else {
      MaskTwice(e.lit, e.ones);
      if |x| == |e.lit| {
        MaskEqualIffPrefixBitsAgree(x, e.lit, e.ones);
      }
    }
  }

  lemma ExactBareCovers(e: Entry, x: Address)
    requires ValidEntry(e) && e.Bare? && !MappedBare(e)
    ensures Contains(ParseCIDR(e), x) <==> x == e.lit
  {
    var ones := if |e.lit| == 4 then 32 else 128;
    assert Short(e.lit) == e.lit && Short(x) == x;
    FullMask(e.lit, ones);
    assert ParseCIDR(e) == IPNet(e.lit, ones);
    if |x| == |e.lit| {
      FullMask(x, ones);
    }
  }

  lemma MappedBareCovers(e: Entry, x: Address)
    requires MappedBare(e)
    ensures Contains(ParseCIDR(e), x) <==> |x| == 16 && x[..4] == [0, 0, 0, 0]
  {
    MappedBareNet(e);
    assert Short(x) == x;
    if |x| == 16 {
      MaskFour(x, ParseCIDR(e).ip);
    }
  }

  lemma FullMask(ip: IP, ones: int)
    requires 8 * |ip| <= ones
    ensures Mask(ip, ones) == ip
  {
  }

  /** The net is `::`, which is not itself an IPv4-mapped address. */
  lemma MappedBareNet(e: Entry)
    requires MappedBare(e)
    ensures var n := ParseCIDR(e);
            n.ones == 32 && |n.ip| == 16 && Short(n.ip) == n.ip && n.ip[..4] == [0, 0, 0, 0]
  {
    assert Mask(e.lit, 32)[10] == 0;
  }

  lemma MaskFour(x: IP, y: IP)
    requires |x| == |y| == 16
    ensures Mask(x, 32) == Mask(y, 32) <==> x[..4] == y[..4]
  {
    forall i | 0 <= i < 16
      ensures Mask(x, 32)[i] == Mask(y, 32)[i] <==> i < 4 ==> x[..4][i] == y[..4][i]
    {
    }
  }
}
