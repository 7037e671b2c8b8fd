/** obfuscation/hw.py: a least-significant-bit-first bitstream decoded with a prefix code
    into entries of a six-entry palette.

    Each symbol starts with a flag bit. A 0 flag is a short code: one more bit selects
    palette entry 0 or 1. A 1 flag is a long code: two more bits select entry 2 .. 5. */
module HelloWorldPy {
  import opened Wrappers
  import opened PyExceptions
  import opened Bits

  const Palette: seq<string> := ["l", "o", "He", ", W", "r", "d!"]

  /** `get_bit`: bit `pos % 8` of byte `pos // 8`, least significant first. Python's `>>`
      floors and `& 1` keeps the parity, which is what `/` and `% 2` do here for any integer
      element. An index past the end of the list raises IndexError. */
  function GetBit(stream: seq<int>, pos: nat): (r: Result<int, Exception>)
    ensures r.Ok? <==> pos / 8 < |stream|
    ensures r.Err? ==> r.error.IndexError?
    ensures r.Ok? ==> r.value == 0 || r.value == 1
  {
    if pos / 8 < |stream| then Ok(stream[pos / 8] / Pow2(pos % 8) % 2)
    else Err(IndexError("list index out of range"))
  }

  /** One symbol read at bit position pos: the palette index it selects and the position
      after it. */
  function Symbol(stream: seq<int>, pos: nat): (r: Result<(nat, nat), Exception>)
    ensures r.Err? ==> r.error.IndexError?
    ensures r.Ok? ==> r.value.0 < |Palette|
  {
    match GetBit(stream, pos)
    case Err(e) => Err(e)
    case Ok(longCode) =>
      match GetBit(stream, pos + 1)
      case Err(e) => Err(e)
      case Ok(index) =>
        if longCode == 1 then
          match GetBit(stream, pos + 2)
          case Err(e) => Err(e)
          case Ok(low) => Ok((2 + 2 * index + low, pos + 3))
        else Ok((index, pos + 2))
  }

  /** A symbol takes 3 bits when its flag bit is set and 2 otherwise; the long codes are
      exactly the ones that select entries 2 .. 5, and every bit it reads is in the stream. */
  lemma SymbolShape(stream: seq<int>, pos: nat)
    requires Symbol(stream, pos).Ok?
    ensures var (index, next) := Symbol(stream, pos).value;
            var flag := GetBit(stream, pos).value;
            (flag == 1 ==> next == pos + 3 && 2 <= index) &&
            (flag == 0 ==> next == pos + 2 && index < 2) &&
            (next - 1) / 8 < |stream|
  {
  }

  /** Enough bits for a long code make any symbol readable. */
  lemma SymbolReadable(stream: seq<int>, pos: nat)
    requires pos + 3 <= 8 * |stream|
    ensures Symbol(stream, pos).Ok?
  {
    assert (pos + 2) / 8 < |stream|;
  }

  /** The first n symbols from bit position pos: their palette indices and the position
      after them. Reading goes left to right, so the first symbol that runs off the end of
      the stream gives the error. */
  function Symbols(stream: seq<int>, pos: nat, n: nat): (r: Result<(seq<nat>, nat), Exception>)
    ensures r.Err? ==> r.error.IndexError?
    ensures r.Ok? ==> |r.value.0| == n && forall k :: 0 <= k < n ==> r.value.0[k] < |Palette|
  {
    if n == 0 then Ok(([], pos))
    else
      match Symbols(stream, pos, n - 1)
      case Err(e) => Err(e)
      case Ok((indices, next)) =>
        match Symbol(stream, next)
        case Err(e) => Err(e)
        case Ok((index, after)) => Ok((indices + [index], after))
  }

  /** The palette entries of the given indices, concatenated. */
  function Render(indices: seq<nat>): (s: string)
    requires forall k :: 0 <= k < |indices| ==> indices[k] < |Palette|
  {
    if indices == [] then []
    else Render(indices[..|indices| - 1]) + Palette[indices[|indices| - 1]]
  }

  /** One entry more appends its text. */
  lemma RenderSnoc(indices: seq<nat>, index: nat)
    requires forall k :: 0 <= k < |indices| ==> indices[k] < |Palette|
    requires index < |Palette|
    ensures Render(indices + [index]) == Render(indices) + Palette[index]
  {
    assert (indices + [index])[..|indices|] == indices;
  }

  lemma {:induction false} RenderAppend(a: seq<nat>, b: seq<nat>)
    requires forall k :: 0 <= k < |a| ==> a[k] < |Palette|
    requires forall k :: 0 <= k < |b| ==> b[k] < |Palette|
    ensures Render(a + b) == Render(a) + Render(b)
    decreases |b|
  {
    if b == [] {
      assert a + b == a;
    } else {
      var b', last := b[..|b| - 1], b[|b| - 1];
      assert a + b == (a + b') + [last];
      RenderSnoc(a + b', last);
      RenderAppend(a, b');
      RenderSnoc(b', last);
      assert b' + [last] == b;
    }
  }

  /** The palette holds no NUL character, so neither does any decoded text. */
  lemma {:induction false} RenderNoNul(indices: seq<nat>)
    requires forall k :: 0 <= k < |indices| ==> indices[k] < |Palette|
    ensures '\0' !in Render(indices)
    decreases |indices|
  {
    if indices != [] {
      RenderNoNul(indices[..|indices| - 1]);
    }
  }

  /** n symbols take between 2n and 3n bits, all inside the stream. */
  lemma {:induction false} SymbolsBits(stream: seq<int>, pos: nat, n: nat)
    requires Symbols(stream, pos, n).Ok?
    ensures var next := Symbols(stream, pos, n).value.1;
            pos + 2 * n <= next <= pos + 3 * n && (n > 0 ==> (next - 1) / 8 < |stream|)
  {
    if n > 0 {
      SymbolsBits(stream, pos, n - 1);
      SymbolShape(stream, Symbols(stream, pos, n - 1).value.1);
    }
  }

  /** If the stream holds 3 bits for each symbol, decoding cannot run off its end. */
  lemma {:induction false} SymbolsReadable(stream: seq<int>, pos: nat, n: nat)
    requires pos + 3 * n <= 8 * |stream|
    ensures Symbols(stream, pos, n).Ok?
  {
    if n > 0 {
      SymbolsReadable(stream, pos, n - 1);
      SymbolsBits(stream, pos, n - 1);
      SymbolReadable(stream, Symbols(stream, pos, n - 1).value.1);
    }
  }

  /** Reading fewer symbols reads a prefix of the same indices. */
  lemma {:induction false} SymbolsPrefix(stream: seq<int>, pos: nat, k: nat, n: nat)
    requires k <= n && Symbols(stream, pos, n).Ok?
    ensures Symbols(stream, pos, k).Ok?
    ensures Symbols(stream, pos, k).value.0 == Symbols(stream, pos, n).value.0[..k]
    decreases n
  {
    if k < n {
      SymbolsPrefix(stream, pos, k, n - 1);
      var prefix := Symbols(stream, pos, n - 1).value.0;
      assert Symbols(stream, pos, n).value.0[..n - 1] == prefix;
      assert prefix[..k] == Symbols(stream, pos, n).value.0[..k];
    }
  }

  /** Once a symbol runs off the end of the stream, reading more symbols gives that error. */
  lemma {:induction false} SymbolsStop(stream: seq<int>, pos: nat, k: nat, n: nat)
    requires k <= n && Symbols(stream, pos, k).Err?
    ensures Symbols(stream, pos, n) == Symbols(stream, pos, k)
    decreases n
  {
    if k < n {
      SymbolsStop(stream, pos, k, n - 1);
    }
  }

  /** What `decode(in_, len_)` returns: the palette entries of the first `len_` symbols
      (none when `len_` is not positive, as `range` gives no iterations). */
  function DecodeResult(stream: seq<int>, len: int): (r: Result<string, Exception>)
    ensures r.Err? ==> r.error.IndexError?
  {
    match Symbols(stream, 0, if len < 0 then 0 else len)
    case Err(e) => Err(e)
    case Ok((indices, _)) => Ok(Render(indices))
  }

  /** `decode`: read one symbol per iteration, advancing the bit index by 2 or 3, and
      append its palette entry. */
  method Decode(stream: seq<int>, len: int) returns (r: Result<string, Exception>)
    ensures r == DecodeResult(stream, len)
  {
    var out: string := "";
    var inIndex: nat := 0;
    var n := if len < 0 then 0 else len;
    ghost var indices: seq<nat> := [];
    for i := 0 to n
      invariant Symbols(stream, 0, i) == Ok((indices, inIndex))
      invariant out == Render(indices)
    {
      var symbol := Symbol(stream, inIndex);
      if symbol.Err? {
        r := Err(symbol.error);
        SymbolsStop(stream, 0, i + 1, n);
        return;
      }
      var (index, next) := symbol.value;
      inIndex := next;
      assert (indices + [index])[..|indices|] == indices;
      out := out + Palette[index];
      indices := indices + [index];
    }
    r := Ok(out);
  }

  /** The decoded text is `len_` palette entries long in symbols and between 2·len_ and
      3·len_ bits long in input; a stream with 3·len_ bits always decodes. */
  lemma DecodeShape(stream: seq<int>, len: nat)
    ensures 3 * len <= 8 * |stream| ==> DecodeResult(stream, len).Ok?
    ensures DecodeResult(stream, len).Ok? ==>
              var (indices, bits) := Symbols(stream, 0, len).value;
              |indices| == len && 2 * len <= bits <= 3 * len &&
              DecodeResult(stream, len).value == Render(indices)
  {
    if 3 * len <= 8 * |stream| {
      SymbolsReadable(stream, 0, len);
    }
    if Symbols(stream, 0, len).Ok? {
      SymbolsBits(stream, 0, len);
    }
  }

  /** One more symbol after n of them. */
  lemma SymbolsStep(stream: seq<int>, pos: nat, n: nat, indices: seq<nat>, next: nat, index: nat,
                    after: nat, extended: seq<nat>)
    requires Symbols(stream, pos, n) == Ok((indices, next))
    requires Symbol(stream, next) == Ok((index, after))
    requires extended == indices + [index]
    ensures Symbols(stream, pos, n + 1) == Ok((extended, after))
  {
  }

  const HelloData: seq<int> := [0x01, 0xEB, 0x38]

  const EggData: seq<int> := [0x48, 0xF5]

  predicate EggBytes(s: seq<int>) {
    |s| == 2 && s[0] == 0x48 && s[1] == 0xF5
  }

  /** The bytes of HelloData, one by one. */
  predicate HelloBytes(s: seq<int>) {
    |s| == 3 && s[0] == 0x01 && s[1] == 0xEB && s[2] == 0x38
  }

  /** The powers of two that select a bit within a byte. */
  lemma Pow2Byte()
    ensures Pow2(0) == 1 && Pow2(1) == 2 && Pow2(2) == 4 && Pow2(3) == 8
    ensures Pow2(4) == 16 && Pow2(5) == 32 && Pow2(6) == 64 && Pow2(7) == 128
  {
  }

  lemma HelloSymbol0(s: seq<int>)
    requires HelloBytes(s)
    ensures Symbol(s, 0) == Ok((2, 3))
  {
    Pow2Byte();
    assert GetBit(s, 0) == Ok(1 / 1 % 2);
    assert GetBit(s, 1) == Ok(1 / 2 % 2);
    assert GetBit(s, 2) == Ok(1 / 4 % 2);
  }

  lemma HelloSymbol1(s: seq<int>)
    requires HelloBytes(s)
    ensures Symbol(s, 3) == Ok((0, 5))
  {
    Pow2Byte();
    assert GetBit(s, 3) == Ok(1 / 8 % 2);
    assert GetBit(s, 4) == Ok(1 / 16 % 2);
  }

  lemma HelloSymbol2(s: seq<int>)
    requires HelloBytes(s)
    ensures Symbol(s, 5) == Ok((0, 7))
  {
    Pow2Byte();
    assert GetBit(s, 5) == Ok(1 / 32 % 2);
    assert GetBit(s, 6) == Ok(1 / 64 % 2);
  }

  lemma HelloSymbol3(s: seq<int>)
    requires HelloBytes(s)
    ensures Symbol(s, 7) == Ok((1, 9))
  {
    Pow2Byte();
    assert GetBit(s, 7) == Ok(1 / 128 % 2);
    assert GetBit(s, 8) == Ok(235 / 1 % 2);
  }

  lemma HelloSymbol4(s: seq<int>)
    requires HelloBytes(s)
    ensures Symbol(s, 9) == Ok((3, 12))
  {
    Pow2Byte();
    assert GetBit(s, 9) == Ok(235 / 2 % 2);
    assert GetBit(s, 10) == Ok(235 / 4 % 2);
    assert GetBit(s, 11) == Ok(235 / 8 % 2);
  }

  lemma HelloSymbol5(s: seq<int>)
    requires HelloBytes(s)
    ensures Symbol(s, 12) == Ok((1, 14))
  {
    Pow2Byte();
    assert GetBit(s, 12) == Ok(235 / 16 % 2);
    assert GetBit(s, 13) == Ok(235 / 32 % 2);
  }

  lemma HelloSymbol6(s: seq<int>)
    requires HelloBytes(s)
    ensures Symbol(s, 14) == Ok((4, 17))
  {
    Pow2Byte();
    assert GetBit(s, 14) == Ok(235 / 64 % 2);
    assert GetBit(s, 15) == Ok(235 / 128 % 2);
    assert GetBit(s, 16) == Ok(56 / 1 % 2);
  }

  lemma HelloSymbol7(s: seq<int>)
    requires HelloBytes(s)
    ensures Symbol(s, 17) == Ok((0, 19))
  {
    Pow2Byte();
    assert GetBit(s, 17) == Ok(56 / 2 % 2);
    assert GetBit(s, 18) == Ok(56 / 4 % 2);
  }

  lemma HelloSymbol8(s: seq<int>)
    requires HelloBytes(s)
    ensures Symbol(s, 19) == Ok((5, 22))
  {
    Pow2Byte();
    assert GetBit(s, 19) == Ok(56 / 8 % 2);
    assert GetBit(s, 20) == Ok(56 / 16 % 2);
    assert GetBit(s, 21) == Ok(56 / 32 % 2);
  }

  /** The symbols of the program's message, read one after the other. */
  lemma HelloSymbols(s: seq<int>)
    requires HelloBytes(s)
    ensures Symbols(s, 0, 9) == Ok(([2, 0, 0, 1, 3, 1, 4, 0, 5], 22))
  {
    HelloSymbol0(s);
    HelloSymbol1(s);
    HelloSymbol2(s);
    HelloSymbol3(s);
    HelloSymbol4(s);
    HelloSymbol5(s);
    HelloSymbol6(s);
    HelloSymbol7(s);
    HelloSymbol8(s);
    var n: nat := 0;
    assert [] + [2] == [2];
    SymbolsStep(s, 0, n, [], 0, 2, 3, [2]);
    n := n + 1;
    assert [2] + [0] == [2, 0];
    SymbolsStep(s, 0, n, [2], 3, 0, 5, [2, 0]);
    n := n + 1;
    assert [2, 0] + [0] == [2, 0, 0];
    SymbolsStep(s, 0, n, [2, 0], 5, 0, 7, [2, 0, 0]);
    n := n + 1;
    assert [2, 0, 0] + [1] == [2, 0, 0, 1];
    SymbolsStep(s, 0, n, [2, 0, 0], 7, 1, 9, [2, 0, 0, 1]);
    n := n + 1;
    assert [2, 0, 0, 1] + [3] == [2, 0, 0, 1, 3];
    SymbolsStep(s, 0, n, [2, 0, 0, 1], 9, 3, 12, [2, 0, 0, 1, 3]);
    n := n + 1;
    assert [2, 0, 0, 1, 3] + [1] == [2, 0, 0, 1, 3, 1];
    SymbolsStep(s, 0, n, [2, 0, 0, 1, 3], 12, 1, 14, [2, 0, 0, 1, 3, 1]);
    n := n + 1;
    assert [2, 0, 0, 1, 3, 1] + [4] == [2, 0, 0, 1, 3, 1, 4];
    SymbolsStep(s, 0, n, [2, 0, 0, 1, 3, 1], 14, 4, 17, [2, 0, 0, 1, 3, 1, 4]);
    n := n + 1;
    assert [2, 0, 0, 1, 3, 1, 4] + [0] == [2, 0, 0, 1, 3, 1, 4, 0];
    SymbolsStep(s, 0, n, [2, 0, 0, 1, 3, 1, 4], 17, 0, 19, [2, 0, 0, 1, 3, 1, 4, 0]);
    n := n + 1;
    assert [2, 0, 0, 1, 3, 1, 4, 0] + [5] == [2, 0, 0, 1, 3, 1, 4, 0, 5];
    SymbolsStep(s, 0, n, [2, 0, 0, 1, 3, 1, 4, 0], 19, 5, 22, [2, 0, 0, 1, 3, 1, 4, 0, 5]);
  }

  lemma EggSymbol0(s: seq<int>)
    requires EggBytes(s)
    ensures Symbol(s, 0) == Ok((0, 2))
  {
    Pow2Byte();
    assert GetBit(s, 0) == Ok(72 / 1 % 2);
    assert GetBit(s, 1) == Ok(72 / 2 % 2);
  }

  lemma EggSymbol1(s: seq<int>)
    requires EggBytes(s)
    ensures Symbol(s, 2) == Ok((1, 4))
  {
    Pow2Byte();
    assert GetBit(s, 2) == Ok(72 / 4 % 2);
    assert GetBit(s, 3) == Ok(72 / 8 % 2);
  }

  lemma EggSymbol2(s: seq<int>)
    requires EggBytes(s)
    ensures Symbol(s, 4) == Ok((0, 6))
  {
    Pow2Byte();
    assert GetBit(s, 4) == Ok(72 / 16 % 2);
    assert GetBit(s, 5) == Ok(72 / 32 % 2);
  }

  lemma EggSymbol3(s: seq<int>)
    requires EggBytes(s)
    ensures Symbol(s, 6) == Ok((3, 9))
  {
    Pow2Byte();
    assert GetBit(s, 6) == Ok(72 / 64 % 2);
    assert GetBit(s, 7) == Ok(72 / 128 % 2);
    assert GetBit(s, 8) == Ok(245 / 1 % 2);
  }

  lemma EggSymbol4(s: seq<int>)
    requires EggBytes(s)
    ensures Symbol(s, 9) == Ok((1, 11))
  {
    Pow2Byte();
    assert GetBit(s, 9) == Ok(245 / 2 % 2);
    assert GetBit(s, 10) == Ok(245 / 4 % 2);
  }

  lemma EggSymbol5(s: seq<int>)
    requires EggBytes(s)
    ensures Symbol(s, 11) == Ok((1, 13))
  {
    Pow2Byte();
    assert GetBit(s, 11) == Ok(245 / 8 % 2);
    assert GetBit(s, 12) == Ok(245 / 16 % 2);
  }

  lemma EggSymbol6(s: seq<int>)
    requires EggBytes(s)
    ensures Symbol(s, 13) == Ok((5, 16))
  {
    Pow2Byte();
    assert GetBit(s, 13) == Ok(245 / 32 % 2);
    assert GetBit(s, 14) == Ok(245 / 64 % 2);
    assert GetBit(s, 15) == Ok(245 / 128 % 2);
  }

  /** The symbols of the second message, read one after the other. */
  lemma EggSymbols(s: seq<int>)
    requires EggBytes(s)
    ensures Symbols(s, 0, 7) == Ok(([0, 1, 0, 3, 1, 1, 5], 16))
  {
    EggSymbol0(s);
    EggSymbol1(s);
    EggSymbol2(s);
    EggSymbol3(s);
    EggSymbol4(s);
    EggSymbol5(s);
    EggSymbol6(s);
    var n: nat := 0;
    assert [] + [0] == [0];
    SymbolsStep(s, 0, n, [], 0, 0, 2, [0]);
    n := n + 1;
    assert [0] + [1] == [0, 1];
    SymbolsStep(s, 0, n, [0], 2, 1, 4, [0, 1]);
    n := n + 1;
    assert [0, 1] + [0] == [0, 1, 0];
    SymbolsStep(s, 0, n, [0, 1], 4, 0, 6, [0, 1, 0]);
    n := n + 1;
    assert [0, 1, 0] + [3] == [0, 1, 0, 3];
    SymbolsStep(s, 0, n, [0, 1, 0], 6, 3, 9, [0, 1, 0, 3]);
    n := n + 1;
    assert [0, 1, 0, 3] + [1] == [0, 1, 0, 3, 1];
    SymbolsStep(s, 0, n, [0, 1, 0, 3], 9, 1, 11, [0, 1, 0, 3, 1]);
    n := n + 1;
    assert [0, 1, 0, 3, 1] + [1] == [0, 1, 0, 3, 1, 1];
    SymbolsStep(s, 0, n, [0, 1, 0, 3, 1], 11, 1, 13, [0, 1, 0, 3, 1, 1]);
    n := n + 1;
    assert [0, 1, 0, 3, 1, 1] + [5] == [0, 1, 0, 3, 1, 1, 5];
    SymbolsStep(s, 0, n, [0, 1, 0, 3, 1, 1], 13, 5, 16, [0, 1, 0, 3, 1, 1, 5]);
  }

  predicate HelloIndices(indices: seq<nat>) {
    |indices| == 9 && indices[0] == 2 && indices[1] == 0 && indices[2] == 0 && indices[3] == 1 && indices[4] == 3 && indices[5] == 1 && indices[6] == 4 && indices[7] == 0 && indices[8] == 5
  }

  lemma HelloRender(indices: seq<nat>)
    requires HelloIndices(indices)
    ensures Render(indices) == "Hello, World!"
  {
    assert Render(indices[..0]) == [];
    RenderSnoc(indices[..0], 2);
    assert indices[..1] == indices[..0] + [2];
    RenderSnoc(indices[..1], 0);
    assert indices[..2] == indices[..1] + [0];
    RenderSnoc(indices[..2], 0);
    assert indices[..3] == indices[..2] + [0];
    RenderSnoc(indices[..3], 1);
    assert indices[..4] == indices[..3] + [1];
    RenderSnoc(indices[..4], 3);
    assert indices[..5] == indices[..4] + [3];
    RenderSnoc(indices[..5], 1);
    assert indices[..6] == indices[..5] + [1];
    RenderSnoc(indices[..6], 4);
    assert indices[..7] == indices[..6] + [4];
    RenderSnoc(indices[..7], 0);
    assert indices[..8] == indices[..7] + [0];
    RenderSnoc(indices[..8], 5);
    assert indices[..9] == indices[..8] + [5];
    assert indices[..9] == indices;
  }

  /** The program's message. */
  lemma DecodeHello()
    ensures DecodeResult(HelloData, 9) == Ok("Hello, World!")
  {
    HelloRender([2, 0, 0, 1, 3, 1, 4, 0, 5]);
    HelloSymbols(HelloData);
  }

  predicate EggIndices(indices: seq<nat>) {
    |indices| == 7 && indices[0] == 0 && indices[1] == 1 && indices[2] == 0 && indices[3] == 3 && indices[4] == 1 && indices[5] == 1 && indices[6] == 5
  }

  lemma EggRender(indices: seq<nat>)
    requires EggIndices(indices)
    ensures Render(indices) == "lol, Wood!"
  {
    assert Render(indices[..0]) == [];
    RenderSnoc(indices[..0], 0);
    assert indices[..1] == indices[..0] + [0];
    RenderSnoc(indices[..1], 1);
    assert indices[..2] == indices[..1] + [1];
    RenderSnoc(indices[..2], 0);
    assert indices[..3] == indices[..2] + [0];
    RenderSnoc(indices[..3], 3);
    assert indices[..4] == indices[..3] + [3];
    RenderSnoc(indices[..4], 1);
    assert indices[..5] == indices[..4] + [1];
    RenderSnoc(indices[..5], 1);
    assert indices[..6] == indices[..5] + [1];
    RenderSnoc(indices[..6], 5);
    assert indices[..7] == indices[..6] + [5];
    assert indices[..7] == indices;
  }

  /** The second message the program decodes. */
  lemma DecodeEgg()
    ensures DecodeResult(EggData, 7) == Ok("lol, Wood!")
  {
    EggRender([0, 1, 0, 3, 1, 1, 5]);
    EggSymbols(EggData);
  }
}
