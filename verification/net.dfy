/** net.py: dotted-quad IPv4 addresses and CIDR blocks.

    Python's `&`, `|` and `~` on its unbounded integers are written out with arithmetic:
    `x & 0xFFFFFFFF` is `x % 2^32`, clearing the low k bits is `x - x % 2^k` and setting them
    is that plus `2^k - 1` (Dafny's `%` by a positive number agrees with Python's, negative
    `x` included). */
module Net {
  import opened Wrappers
  import opened PyExceptions
  import opened PyStr
  import opened Decimal
  import opened Bits

  const Two32: nat := 0x1_0000_0000

  /** A number from four bytes, most significant first. */
  function FromOctets(a: int, b: int, c: int, d: int): int {
    a * 0x100_0000 + b * 0x1_0000 + c * 0x100 + d
  }

  /** `struct.unpack("BBBB", struct.pack(">I", ip))`: the four bytes of a 32-bit number,
      most significant first. */
  function Octets(ip: nat): (o: seq<nat>)
    requires ip < Two32
    ensures |o| == 4 && forall k :: 0 <= k < 4 ==> o[k] < 256
    ensures FromOctets(o[0], o[1], o[2], o[3]) == ip
  {
    var high, low := ip / 0x1_0000, ip % 0x1_0000;
    assert ip == high * 0x1_0000 + low && high < 0x1_0000;
    var a, b, c, d := high / 0x100, high % 0x100, low / 0x100, low % 0x100;
    assert high == a * 0x100 + b && low == c * 0x100 + d;
    [a, b, c, d]
  }

  /** `map(str, ...)`. */
  function ShowAll(ns: seq<nat>): (r: seq<string>)
    ensures |r| == |ns| && forall k :: 0 <= k < |ns| ==> r[k] == ShowNat(ns[k])
  {
    if ns == [] then [] else [ShowNat(ns[0])] + ShowAll(ns[1..])
  }

  /** `format_ip`: the four bytes in decimal, joined by dots. `struct.pack(">I", ...)` refuses
      a number outside 0 .. 2^32 - 1. */
  function FormatIp(ip: int): (r: Result<string, Exception>)
    ensures r.Ok? <==> 0 <= ip < Two32
    ensures r.Err? ==> r.error.StructError?
  {
    if 0 <= ip < Two32 then Ok(Join(ShowAll(Octets(ip)), '.'))
    else Err(StructError("argument out of range"))
  }

  /** `int(w)` on a string: surrounding whitespace, an optional sign, then decimal digits. */
  function ParseInt(w: string): (r: Option<int>)
    ensures AllDigits(w) && w != [] ==> r == Some(DigitsValue(w))
  {
    var t := Strip(w);
    if AllDigits(w) && w != [] then
      StripDigits(w);
      Some(DigitsValue(w))
    else if t != [] && (t[0] == '+' || t[0] == '-') then
      var digits := t[1..];
      if digits != [] && AllDigits(digits) then
        Some(if t[0] == '-' then 0 - DigitsValue(digits) else DigitsValue(digits))
      else None
    else if t != [] && AllDigits(t) then Some(DigitsValue(t))
    else None
  }

  /** A string of digits has no whitespace to strip. */
  lemma StripDigits(w: string)
    requires AllDigits(w) && w != []
    ensures Strip(w) == w
  {
    assert !IsSpace(w[0]) && !IsSpace(w[|w| - 1]);
  }

  /** `map(int, ws)`: every word as a number, or None when one of them is not a number. */
  function ParseAll(ws: seq<string>): (r: Option<seq<int>>)
    ensures r.Some? <==> forall k :: 0 <= k < |ws| ==> ParseInt(ws[k]).Some?
    ensures r.Some? ==> |r.value| == |ws| &&
                        forall k :: 0 <= k < |ws| ==> ParseInt(ws[k]) == Some(r.value[k])
  {
    if ws == [] then Some([])
    else
      var head, tail := ParseInt(ws[0]), ParseAll(ws[1..]);
      assert forall k :: 1 <= k < |ws| ==> ws[1..][k - 1] == ws[k];
      if head.Some? && tail.Some? then Some([head.value] + tail.value) else None
  }

  predicate AllBytes(vals: seq<int>) {
    forall k :: 0 <= k < |vals| ==> 0 <= vals[k] < 256
  }

  /** `struct.unpack(">I", struct.pack("BBBB", *vals))[0]`: packing needs exactly four
      numbers, each 0 .. 255, and otherwise raises struct.error; the result reads the four
      bytes back as one 32-bit number. */
  function PackOctets(vals: seq<int>): (r: Result<nat, Exception>)
    ensures r.Ok? <==> |vals| == 4 && AllBytes(vals)
    ensures r.Err? ==> r.error.StructError?
    ensures r.Ok? ==> r.value < Two32 && r.value == FromOctets(vals[0], vals[1], vals[2], vals[3])
  {
    if |vals| != 4 then Err(StructError("pack expected 4 items for packing"))
    else if !AllBytes(vals) then Err(StructError("ubyte format requires 0 <= number <= 255"))
    else
      assert 0 <= vals[0] < 256 && 0 <= vals[1] < 256 && 0 <= vals[2] < 256 && 0 <= vals[3] < 256;
      FromOctetsBound(vals[0], vals[1], vals[2], vals[3]);
      var n: nat := FromOctets(vals[0], vals[1], vals[2], vals[3]);
      Ok(n)
  }

  /** `unformat_ip`: the dot-separated numbers packed as four bytes and read back as one
      32-bit number. A piece that is not a number raises ValueError before any packing. */
  function UnformatIp(s: string): (r: Result<nat, Exception>)
    ensures ParseAll(SplitOn(s, '.')).None? ==> r.Err? && r.error.ValueError?
    ensures r.Ok? ==> |SplitOn(s, '.')| == 4
    ensures ParseAll(SplitOn(s, '.')).Some? ==> r == PackOctets(ParseAll(SplitOn(s, '.')).value)
  {
    match ParseAll(SplitOn(s, '.'))
    case None => Err(ValueError("invalid literal for int() with base 10"))
    case Some(vals) => PackOctets(vals)
  }

  /** Four bytes make a 32-bit number. */
  lemma FromOctetsBound(a: int, b: int, c: int, d: int)
    requires 0 <= a < 256 && 0 <= b < 256 && 0 <= c < 256 && 0 <= d < 256
    ensures 0 <= FromOctets(a, b, c, d) < Two32
  {
    assert 0 <= a * 0x100_0000 <= 255 * 0x100_0000;
    assert 0 <= b * 0x1_0000 <= 255 * 0x1_0000;
    assert 0 <= c * 0x100 <= 255 * 0x100;
  }

  /** The decimal rendering of a number reads back as that number. */
  lemma ParseShowNat(n: nat)
    ensures ParseInt(ShowNat(n)) == Some(n)
  {
    ShowNatRoundTrip(n);
  }

  /** Digits hold no dot. */
  lemma DigitsNoDot(w: string)
    requires AllDigits(w)
    ensures '.' !in w
  {
  }

  /** Splitting a formatted address on dots gives back its four decimal bytes. */
  lemma SplitFormatted(ip: int)
    requires 0 <= ip < Two32
    ensures SplitOn(FormatIp(ip).value, '.') == ShowAll(Octets(ip))
  {
    var parts := ShowAll(Octets(ip));
    forall k | 0 <= k < |parts| ensures '.' !in parts[k] {
      DigitsNoDot(parts[k]);
    }
    SplitJoin(parts, '.');
  }

  /** Decimal renderings read back as the numbers they render. */
  lemma {:induction false} ParseAllShown(ns: seq<nat>)
    ensures ParseAll(ShowAll(ns)).Some?
    ensures ParseAll(ShowAll(ns)).value == ns
  {
    if ns != [] {
      ParseAllShown(ns[1..]);
      ParseShowNat(ns[0]);
      assert ShowAll(ns)[1..] == ShowAll(ns[1..]);
    }
  }

  /** Reading back a formatted address gives the address. */
  lemma UnformatFormat(ip: int)
    requires 0 <= ip < Two32
    ensures UnformatIp(FormatIp(ip).value) == Ok(ip)
  {
    var o := Octets(ip);
    SplitFormatted(ip);
    ParseAllShown(o);
    assert AllBytes(o);
  }

  // ---------------------------------------------------------------------------------------
  // mask_ip
  // ---------------------------------------------------------------------------------------

  /** `x & ~((1 << k) - 1)`: x with its low k bits cleared. */
  function ClearLow(x: int, k: nat): int {
    x - x % Pow2(k)
  }

  /** `x | ((1 << k) - 1)`: x with its low k bits set. */
  function SetLow(x: int, k: nat): int {
    ClearLow(x, k) + Pow2(k) - 1
  }

  /** `mask_ip`: the first and last address of the CIDR block of the given prefix length
      that holds ip. `1 << (32 - block)` refuses a negative shift, so a prefix longer than 32
      raises ValueError. The mask keeps bits 32 - block .. 31, so `ip & mask` is the low 32
      bits of ip with the low 32 - block cleared, and `ip | (0xFFFFFFFF & ~mask)` sets the low
      32 - block bits of ip (at most the low 32). */
  function MaskIp(ip: int, block: int): (r: Result<(int, int), Exception>)
    ensures r.Err? <==> block > 32
    ensures r.Err? ==> r.error.ValueError?
  {
    if block > 32 then Err(ValueError("negative shift count"))
    else
      var k := 32 - block;
      Ok((ClearLow(ip % Two32, k), SetLow(ip, if k < 32 then k else 32)))
  }

  lemma Pow2Of32()
    ensures Pow2(32) == Two32
  {
    assert Pow2(2) == 4;
    Pow2Add(2, 2);
    Pow2Add(4, 4);
    Pow2Add(8, 8);
    Pow2Add(16, 16);
  }

  /** An address lies in a block of size 2^k exactly when it agrees with the block's first
      address above the low k bits. */
  lemma BlockMembers(ip: int, x: int, k: nat)
    ensures ClearLow(ip, k) <= x <= SetLow(ip, k) <==> x / Pow2(k) == ip / Pow2(k)
  {
    var p := Pow2(k);
    var q := ip / p;
    assert ClearLow(ip, k) == p * q;
    if x / p == q {
      assert x == p * q + x % p;
    }
    if p * q <= x <= p * q + p - 1 {
      var r := x - p * q;
      assert 0 <= r < p && x == p * q + r;
      DivUnique(x, p, q, r);
    }
  }

  lemma MulLe(p: nat, a: int, b: int)
    requires a <= b
    ensures p * a <= p * b
  {
    assert p * b - p * a == p * (b - a);
  }

  lemma DivUnique(x: int, p: nat, q: int, r: int)
    requires p >= 1 && 0 <= r < p && x == p * q + r
    ensures x / p == q
  {
    var q', r' := x / p, x % p;
    assert x == p * q' + r';
    if q' < q {
      assert p * (q' + 1) == p * q' + p;
      MulLe(p, q' + 1, q);
    } else if q' > q {
      assert p * (q + 1) == p * q + p;
      MulLe(p, q + 1, q');
    }
  }

  /** Clearing the low k bits leaves the multiple of 2^k at or below x. */
  lemma ClearLowMultiple(x: int, k: nat)
    ensures ClearLow(x, k) == Pow2(k) * (x / Pow2(k))
    ensures ClearLow(x, k) % Pow2(k) == 0
  {
    var p := Pow2(k);
    assert x == p * (x / p) + x % p;
    DivUnique(p * (x / p), p, x / p, 0);
  }

  /** The multiple of p at or below x, plus p, stays within any multiple of p above x. */
  lemma QuotientBound(x: int, p: nat, n: nat)
    requires p >= 1 && 0 <= x < p * n
    ensures p * (x / p) + p <= p * n
  {
    var q := x / p;
    assert p * q <= x by {
      assert x == p * q + x % p;
    }
    if q >= n {
      MulLe(p, n, q);
    }
    MulLe(p, q + 1, n);
    assert p * (q + 1) == p * q + p;
  }

  /** Inside the 32-bit range, a block of size 2^(32 - block) ends inside the range too. */
  lemma BlockEndWithin(ip: int, block: int)
    requires 0 <= ip < Two32 && 0 <= block <= 32
    ensures Pow2(32 - block) * (ip / Pow2(32 - block)) + Pow2(32 - block) <= Two32
  {
    Pow2Of32();
    Pow2Add(32 - block, block);
    QuotientBound(ip, Pow2(32 - block), Pow2(block));
  }

  /** For an address and a prefix length 0 .. 32, the block runs from a multiple of its size
      2^(32 - block) through 2^(32 - block) - 1 further, holds ip, and stays a 32-bit address;
      its members are exactly the addresses that agree with ip in the top `block` bits. */
  lemma MaskIpBlock(ip: int, block: int)
    requires 0 <= ip < Two32 && 0 <= block <= 32
    ensures var k := 32 - block;
            var (start, end) := MaskIp(ip, block).value;
            start <= ip <= end < Two32 &&
            end - start == Pow2(k) - 1 && start % Pow2(k) == 0 &&
            forall x :: start <= x <= end <==> x / Pow2(k) == ip / Pow2(k)
  {
    var k := 32 - block;
    assert ip % Two32 == ip;
    ClearLowMultiple(ip, k);
    BlockEndWithin(ip, block);
    forall x ensures ClearLow(ip, k) <= x <= SetLow(ip, k) <==> x / Pow2(k) == ip / Pow2(k) {
      BlockMembers(ip, x, k);
    }
  }

  /** A /32 block is the address alone; a /0 block is the whole address space. */
  lemma MaskIpEdges(ip: int)
    requires 0 <= ip < Two32
    ensures MaskIp(ip, 32) == Ok((ip, ip))
    ensures MaskIp(ip, 0) == Ok((0, 0xFFFF_FFFF))
  {
    Pow2Of32();
    assert ip % Two32 == ip;
    assert ip / Two32 == 0;
  }
}
