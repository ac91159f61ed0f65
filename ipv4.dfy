/** IPv4 address prefixes as section 3.1 of RFC 4632 defines them: a 32-bit network
    address and a prefix length 0..32 whose host bits are all zero. This is the part of
    Python's `ipaddress.IPv4Network` (strict mode) that the CIDR validator relies on:
    parsing a CIDR text, `subnet_of`, `overlaps` and membership of an address. */
module Ipv4 {
  import opened Wrappers
  import Decimal

  /** Number of IPv4 addresses, 2^32. */
  const AddressSpace: nat := 0x1_0000_0000
  const MaxPrefixLen: nat := 32

  function Pow2(n: nat): (r: nat)
    ensures r >= 1
  {
    if n == 0 then 1 else 2 * Pow2(n - 1)
  }

  /** A network address and a prefix length, not yet known to be well formed. */
  datatype Prefix = Prefix(network: nat, len: nat)

  /** How many addresses a prefix of length `len` covers. */
  function BlockSize(len: nat): (r: nat)
    requires len <= MaxPrefixLen
    ensures 1 <= r <= AddressSpace
  {
    BlockSizeBound(len);
    Pow2(MaxPrefixLen - len)
  }

  /** The address fits in 32 bits, the length is at most 32 and no host bit is set. */
  predicate WellFormed(p: Prefix) {
    p.len <= MaxPrefixLen && p.network < AddressSpace && p.network % BlockSize(p.len) == 0
  }

  /** A prefix that `IPv4Network` accepts in strict mode. */
  type Network = p: Prefix | WellFormed(p) witness Prefix(0, 0)

  /** The highest address of the prefix; for a well-formed prefix this is
      `network | hostmask`, Python's `broadcast_address`. */
  function Broadcast(p: Prefix): nat
    requires p.len <= MaxPrefixLen
  {
    p.network + BlockSize(p.len) - 1
  }

  /** Python's `address in network`: the address with its host bits cleared
      (`address & netmask`) equals the network address. Clearing the host bits is
      rounding down to a multiple of the block size. */
  predicate InPrefix(a: nat, p: Prefix)
    requires p.len <= MaxPrefixLen
  {
    a / BlockSize(p.len) * BlockSize(p.len) == p.network
  }

  /** Python's `a.subnet_of(b)`: `b` starts no later and ends no earlier than `a`. */
  predicate SubnetOf(a: Prefix, b: Prefix)
    requires a.len <= MaxPrefixLen && b.len <= MaxPrefixLen
  {
    b.network <= a.network && Broadcast(b) >= Broadcast(a)
  }

  /** Python's `a.overlaps(b)`: one of the four end points of either prefix lies in the other. */
  predicate Overlaps(a: Prefix, b: Prefix)
    requires a.len <= MaxPrefixLen && b.len <= MaxPrefixLen
  {
    InPrefix(b.network, a) || InPrefix(Broadcast(b), a) ||
    InPrefix(a.network, b) || InPrefix(Broadcast(a), b)
  }

  // ---------------------------------------------------------------------------
  // Arithmetic helpers
  // ---------------------------------------------------------------------------

  lemma Pow2Add(m: nat, n: nat)
    ensures Pow2(m + n) == Pow2(m) * Pow2(n)
  {
    if m > 0 {
      Pow2Add(m - 1, n);
    }
  }

  lemma Pow2Values()
    ensures Pow2(4) == 16 && Pow2(8) == 256 && Pow2(16) == 0x1_0000 && Pow2(32) == AddressSpace
  {
    assert Pow2(2) == 4;
    Pow2Add(2, 2);
    Pow2Add(4, 4);
    Pow2Add(8, 8);
    Pow2Add(16, 16);
  }

  lemma BlockSizeBound(len: nat)
    requires len <= MaxPrefixLen
    ensures Pow2(MaxPrefixLen - len) <= AddressSpace
  {
    Pow2Values();
    Pow2Add(len, MaxPrefixLen - len);
    MulMonotone(1, Pow2(len), Pow2(MaxPrefixLen - len));
  }

  /** Multiplying by a positive number keeps a strict order. */
  lemma MulCancelLt(x: int, y: int, s: int)
    requires s > 0 && x * s < y * s
    ensures x < y
  {
    if x >= y {
      MulMonotone(y, x, s);
    }
  }

  lemma MulMonotone(x: int, y: int, s: int)
    requires s > 0 && x <= y
    ensures x * s <= y * s
  {
    assert y * s - x * s == (y - x) * s;
  }

  // ---------------------------------------------------------------------------
  // Membership, overlap and containment
  // ---------------------------------------------------------------------------

  /** For a well-formed prefix, the mask test of membership is the interval
      from the network address to the broadcast address. */
  lemma InPrefixIsInterval(a: nat, p: Prefix)
    requires WellFormed(p)
    ensures InPrefix(a, p) <==> p.network <= a <= Broadcast(p)
  {
    RoundDownIsInterval(a, p.network, BlockSize(p.len));
  }

  /** Rounding `a` down to a multiple of `s` gives the multiple `n` of `s` exactly
      when `a` lies in the block of `s` numbers starting at `n`. */
  lemma RoundDownIsInterval(a: nat, n: nat, s: nat)
    requires s > 0 && n % s == 0
    ensures a / s * s == n <==> n <= a < n + s
  {
    var q := a / s;
    DivBounds(a, s);
    if n <= a < n + s {
      var k := n / s;
      DivBounds(n, s);
      assert q * s < (k + 1) * s;
      MulCancelLt(q, k + 1, s);
      assert k * s < (q + 1) * s;
      MulCancelLt(k, q + 1, s);
    }
  }

  /** Rounding down to a multiple of `s` stays within `s` of the number. */
  lemma DivBounds(a: nat, s: nat)
    requires s > 0
    ensures a / s * s <= a < a / s * s + s
    ensures a % s == 0 ==> a / s * s == a
  {
    assert a == a / s * s + a % s;
  }

  /** `overlaps` is symmetric and holds exactly when the address intervals of the two
      prefixes intersect. */
  lemma OverlapsIffIntersect(a: Prefix, b: Prefix)
    requires WellFormed(a) && WellFormed(b)
    ensures Overlaps(a, b) <==> a.network <= Broadcast(b) && b.network <= Broadcast(a)
    ensures Overlaps(a, b) <==> Overlaps(b, a)
  {
    InPrefixIsInterval(b.network, a);
    InPrefixIsInterval(Broadcast(b), a);
    InPrefixIsInterval(a.network, b);
    InPrefixIsInterval(Broadcast(a), b);
  }

  /** Two prefixes overlap exactly when some address belongs to both. */
  lemma OverlapsIffSharedAddress(a: Prefix, b: Prefix)
    requires WellFormed(a) && WellFormed(b)
    ensures Overlaps(a, b) <==> exists x: nat :: InPrefix(x, a) && InPrefix(x, b)
  {
    OverlapsIffIntersect(a, b);
    if Overlaps(a, b) {
      var x := if a.network <= b.network then b.network else a.network;
      InPrefixIsInterval(x, a);
      InPrefixIsInterval(x, b);
    }
    forall x: nat | InPrefix(x, a) && InPrefix(x, b)
      ensures Overlaps(a, b)
    {
      InPrefixIsInterval(x, a);
      InPrefixIsInterval(x, b);
    }
  }

  /** Aligned blocks: a block of size `q * sy` aligned to its size and a block of size
      `sy` aligned to its size either are disjoint or the second lies inside the first. */
  lemma AlignedBlocksNest(x: nat, y: nat, q: nat, sy: nat)
    requires sy > 0 && q > 0
    requires x % (q * sy) == 0 && y % sy == 0
    requires x < y + sy && y < x + q * sy
    ensures x <= y && y + sy <= x + q * sy
  {
    var kx := x / (q * sy);
    var ky := y / sy;
    var big := kx * q;
    assert x == kx * (q * sy);
    assert x == big * sy;
    assert y == ky * sy;
    assert big * sy < (ky + 1) * sy;
    MulCancelLt(big, ky + 1, sy);
    MulMonotone(big, ky, sy);
    assert ky * sy < (big + q) * sy;
    MulCancelLt(ky, big + q, sy);
    MulMonotone(ky + 1, big + q, sy);
  }

  /** The longer of two intersecting well-formed prefixes lies inside the shorter. */
  lemma ShorterContainsLonger(a: Prefix, b: Prefix)
    requires WellFormed(a) && WellFormed(b) && a.len <= b.len
    requires a.network <= Broadcast(b) && b.network <= Broadcast(a)
    ensures SubnetOf(b, a)
  {
    var sy := BlockSize(b.len);
    var q := Pow2(b.len - a.len);
    Pow2Add(b.len - a.len, MaxPrefixLen - b.len);
    assert BlockSize(a.len) == q * sy;
    AlignedBlocksNest(a.network, b.network, q, sy);
  }

  /** Two well-formed prefixes overlap exactly when one is a subnet of the other:
      prefixes never partly overlap. */
  lemma {:induction false} OverlapsIffNested(a: Prefix, b: Prefix)
    requires WellFormed(a) && WellFormed(b)
    ensures Overlaps(a, b) <==> SubnetOf(a, b) || SubnetOf(b, a)
  {
    OverlapsIffIntersect(a, b);
    if Overlaps(a, b) {
      if a.len <= b.len {
        ShorterContainsLonger(a, b);
      } else {
        ShorterContainsLonger(b, a);
      }
    }
  }

  /** A prefix overlaps itself, and so does every subnet of a prefix. */
  lemma SubnetOverlaps(a: Prefix, b: Prefix)
    requires WellFormed(a) && WellFormed(b) && SubnetOf(a, b)
    ensures Overlaps(a, b) && Overlaps(b, a)
  {
    OverlapsIffNested(a, b);
    OverlapsIffNested(b, a);
  }

  // ---------------------------------------------------------------------------
  // Parsing and printing CIDR text ("a.b.c.d/n", strict mode)
  // ---------------------------------------------------------------------------

  /** Why `IPv4Network(text)` raised: more than one '/', a malformed address, a
      malformed prefix length or netmask, or host bits set in strict mode. */
  datatype ParseError = TooManySlashes | BadAddress | BadNetmask | HostBitsSet

  /** Python's `s.split(sep)`: the pieces between separators, possibly empty. */
  function Split(s: string, sep: char): (parts: seq<string>)
    ensures |parts| >= 1
    ensures forall i :: 0 <= i < |parts| ==> sep !in parts[i]
    decreases |s|
  {
    if s == [] then [""]
    else
      var rest := Split(s[1..], sep);
      if s[0] == sep then [""] + rest else [[s[0]] + rest[0]] + rest[1..]
  }

  /** The first part of a split is a prefix of the text. */
  lemma {:induction false} SplitFirstIsPrefix(s: string, sep: char)
    ensures Split(s, sep)[0] <= s
    decreases |s|
  {
    if s != [] {
      SplitFirstIsPrefix(s[1..], sep);
    }
  }

  /** Text that parses as a prefix starts with a decimal digit, the first digit of its
      first octet. */
  lemma ParsedTextStartsWithDigit(text: string)
    requires ParsePrefix(text).Ok?
    ensures |text| > 0 && Decimal.IsDigit(text[0])
  {
    var head := Split(text, '/')[0];
    SplitFirstIsPrefix(text, '/');
    var first := Split(head, '.')[0];
    SplitFirstIsPrefix(head, '.');
    assert ParseOctet(first).Some?;
    assert first[0] == text[0];
  }

  lemma {:induction false} SplitWithoutSeparator(a: string, sep: char)
    requires sep !in a
    ensures Split(a, sep) == [a]
  {
    if a != [] {
      SplitWithoutSeparator(a[1..], sep);
      assert [a[0]] + a[1..] == a;
    }
  }

  lemma {:induction false} SplitAtSeparator(a: string, b: string, sep: char)
    requires sep !in a
    ensures Split(a + [sep] + b, sep) == [a] + Split(b, sep)
  {
    if a != [] {
      SplitAtSeparator(a[1..], b, sep);
      assert (a + [sep] + b)[1..] == a[1..] + [sep] + b;
      assert [a[0]] + a[1..] == a;
    } else {
      assert (a + [sep] + b)[1..] == b;
    }
  }

  /** Python's `_parse_octet`: one to three ASCII digits, no leading zero, at most 255. */
  function ParseOctet(t: string): (r: Option<nat>)
    ensures r.Some? ==> Decimal.AllDigits(t) && r.value == Decimal.Value(t) && r.value < 256
  {
    if t == [] || !Decimal.AllDigits(t) || |t| > 3 || (t != "0" && t[0] == '0') then None
    else if Decimal.Value(t) > 255 then None
    else Some(Decimal.Value(t))
  }

  /** The 32-bit address whose big-endian octets are `o0.o1.o2.o3`. */
  function AddressOf(o0: nat, o1: nat, o2: nat, o3: nat): nat {
    ((o0 * 256 + o1) * 256 + o2) * 256 + o3
  }

  /** Python's `_ip_int_from_string`: exactly four dot-separated octets. */
  function ParseAddress(t: string): (r: Option<nat>)
    ensures r.Some? ==> r.value < AddressSpace
  {
    var parts := Split(t, '.');
    if |parts| != 4 then None
    else match (ParseOctet(parts[0]), ParseOctet(parts[1]), ParseOctet(parts[2]), ParseOctet(parts[3]))
      case (Some(o0), Some(o1), Some(o2), Some(o3)) => Some(AddressOf(o0, o1, o2, o3))
      case _ => None
  }

  /** The netmask of a /k prefix: k one bits followed by 32 - k zero bits. */
  function Netmask(k: nat): nat
    requires k <= MaxPrefixLen
  {
    AddressSpace - BlockSize(k)
  }

  /** The prefix length `k >= from` whose netmask is `v`, if there is one. */
  function NetmaskLength(v: nat, from: nat): (r: Option<nat>)
    requires from <= MaxPrefixLen + 1
    ensures r.Some? ==> from <= r.value <= MaxPrefixLen && v == Netmask(r.value)
    ensures r.None? ==> forall k :: from <= k <= MaxPrefixLen ==> v != Netmask(k)
    decreases MaxPrefixLen + 1 - from
  {
    if from > MaxPrefixLen then None
    else if v == Netmask(from) then Some(from)
    else NetmaskLength(v, from + 1)
  }

  /** Python's `_make_netmask` on the text after '/': a decimal length 0..32, or else a
      dotted netmask, or else a dotted hostmask (the netmask with every bit inverted). */
  function PrefixLength(t: string): (r: Option<nat>)
    ensures r.Some? ==> r.value <= MaxPrefixLen
  {
    if t != [] && Decimal.AllDigits(t) && Decimal.Value(t) <= MaxPrefixLen then Some(Decimal.Value(t))
    else match ParseAddress(t)
      case None => None
      case Some(v) =>
        match NetmaskLength(v, 0)
        case Some(k) => Some(k)
        case None => NetmaskLength(AddressSpace - 1 - v, 0)
  }

  /** `ipaddress.IPv4Network(text)` with `strict=True`. */
  function ParsePrefix(text: string): (r: Result<Network, ParseError>)
  {
    var parts := Split(text, '/');
    if |parts| > 2 then Err(TooManySlashes)
    else match ParseAddress(parts[0])
      case None => Err(BadAddress)
      case Some(a) =>
        var len := if |parts| == 1 then Some(MaxPrefixLen) else PrefixLength(parts[1]);
        match len
        case None => Err(BadNetmask)
        case Some(k) => if a % BlockSize(k) != 0 then Err(HostBitsSet) else Ok(Prefix(a, k))
  }

  /** What a successful parse is made of: at most one '/', the address before it, and
      the length after it (32 when there is none); more than one '/' is refused first. */
  lemma ParsePrefixParts(text: string)
    ensures ParsePrefix(text).Ok? ==>
      |Split(text, '/')| <= 2 && ParseAddress(Split(text, '/')[0]) == Some(ParsePrefix(text).value.network)
    ensures ParsePrefix(text).Ok? && |Split(text, '/')| == 1 ==> ParsePrefix(text).value.len == MaxPrefixLen
    ensures ParsePrefix(text).Ok? && |Split(text, '/')| == 2 ==>
      PrefixLength(Split(text, '/')[1]) == Some(ParsePrefix(text).value.len)
    ensures ParsePrefix(text) == Err(TooManySlashes) <==> |Split(text, '/')| > 2
  {
  }

  /** The dotted-quad text of an address, as Python's `str(IPv4Address)` writes it. */
  function FormatAddress(a: nat): string
    requires a < AddressSpace
  {
    var a1 := a / 256;
    var a2 := a1 / 256;
    Decimal.Render(a2 / 256) + "." + Decimal.Render(a2 % 256) + "." +
    Decimal.Render(a1 % 256) + "." + Decimal.Render(a % 256)
  }

  /** The "a.b.c.d/n" text of a prefix, as Python's `str(IPv4Network)` writes it. */
  function Format(p: Prefix): string
    requires WellFormed(p)
  {
    FormatAddress(p.network) + "/" + Decimal.Render(p.len)
  }

  lemma ParseOctetOfRender(n: nat)
    requires n < 256
    ensures ParseOctet(Decimal.Render(n)) == Some(n)
  {
    Decimal.ValueOfRender(n);
  }

  lemma ParseAddressOfFormat(a: nat)
    requires a < AddressSpace
    ensures ParseAddress(FormatAddress(a)) == Some(a)
  {
    var a1 := a / 256;
    var a2 := a1 / 256;
    OctetsReassemble(a);
    var r0, r1, r2, r3 := Decimal.Render(a2 / 256), Decimal.Render(a2 % 256), Decimal.Render(a1 % 256), Decimal.Render(a % 256);
    ParseOctetOfRender(a2 / 256);
    ParseOctetOfRender(a2 % 256);
    ParseOctetOfRender(a1 % 256);
    ParseOctetOfRender(a % 256);
    SplitFour(r0, r1, r2, r3);
  }

  lemma OctetsReassemble(a: nat)
    requires a < AddressSpace
    ensures a / 256 / 256 / 256 < 256
    ensures AddressOf(a / 256 / 256 / 256, a / 256 / 256 % 256, a / 256 % 256, a % 256) == a
  {
    var a1 := a / 256;
    var a2 := a1 / 256;
    assert a == a1 * 256 + a % 256;
    assert a1 == a2 * 256 + a1 % 256;
    assert a2 == a2 / 256 * 256 + a2 % 256;
  }

  /** The text of a prefix in terms of its four octets. */
  lemma FormatOctets(p: Prefix, o0: nat, o1: nat, o2: nat, o3: nat)
    requires WellFormed(p)
    requires p.network / 256 / 256 / 256 == o0 && p.network / 256 / 256 % 256 == o1
    requires p.network / 256 % 256 == o2 && p.network % 256 == o3
    ensures Format(p) == Decimal.Render(o0) + "." + Decimal.Render(o1) + "." + Decimal.Render(o2) + "." +
      Decimal.Render(o3) + "/" + Decimal.Render(p.len)
  {
  }

  lemma SplitFour(r0: string, r1: string, r2: string, r3: string)
    requires Decimal.AllDigits(r0) && Decimal.AllDigits(r1) && Decimal.AllDigits(r2) && Decimal.AllDigits(r3)
    ensures Split(r0 + "." + r1 + "." + r2 + "." + r3, '.') == [r0, r1, r2, r3]
  {
    NoSeparatorInDigits(r0, '.');
    NoSeparatorInDigits(r1, '.');
    NoSeparatorInDigits(r2, '.');
    NoSeparatorInDigits(r3, '.');
    var t2 := r2 + ['.'] + r3;
    var t1 := r1 + ['.'] + t2;
    var t0 := r0 + ['.'] + t1;
    SplitWithoutSeparator(r3, '.');
    SplitAtSeparator(r2, r3, '.');
    SplitAtSeparator(r1, t2, '.');
    SplitAtSeparator(r0, t1, '.');
    assert t0 == r0 + "." + r1 + "." + r2 + "." + r3;
  }

  lemma NoSeparatorInDigits(t: string, sep: char)
    requires Decimal.AllDigits(t) && !Decimal.IsDigit(sep)
    ensures sep !in t
  {
  }

  /** Strict mode: the text "address/length" parses to that prefix when no host bit of
      the address is set, and is refused with `HostBitsSet` otherwise. */
  lemma ParseWithLength(a: nat, k: nat)
    requires a < AddressSpace && k <= MaxPrefixLen
    ensures ParsePrefix(FormatAddress(a) + "/" + Decimal.Render(k)) ==
      if a % BlockSize(k) == 0 then Ok(Prefix(a, k)) else Err(HostBitsSet)
  {
    var addr := FormatAddress(a);
    var len := Decimal.Render(k);
    assert forall i :: 0 <= i < |addr| ==> addr[i] == '.' || Decimal.IsDigit(addr[i]);
    assert '/' !in addr;
    NoSeparatorInDigits(len, '/');
    SplitWithoutSeparator(len, '/');
    SplitAtSeparator(addr, len, '/');
    assert Split(addr + "/" + len, '/') == [addr, len];
    ParseAddressOfFormat(a);
    Decimal.ValueOfRender(k);
  }

  /** An address without "/length" is a /32 network. */
  lemma ParseBareAddress(a: nat)
    requires a < AddressSpace
    ensures ParsePrefix(FormatAddress(a)) == Ok(Prefix(a, MaxPrefixLen))
  {
    var addr := FormatAddress(a);
    assert forall i :: 0 <= i < |addr| ==> addr[i] == '.' || Decimal.IsDigit(addr[i]);
    SplitWithoutSeparator(addr, '/');
    ParseAddressOfFormat(a);
    assert Pow2(0) == 1;
  }

  /** Printing a well-formed prefix and parsing the text back gives the same prefix. */
  lemma ParseOfFormat(p: Prefix)
    requires WellFormed(p)
    ensures ParsePrefix(Format(p)) == Ok(p)
  {
    ParseWithLength(p.network, p.len);
  }
}
