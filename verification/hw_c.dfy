/** obfuscation/hw.c: the same bitstream decoder as obfuscation/hw.py, writing the palette
    entries one after the other into a caller's character buffer as C strings.

    The input, a read-only array of `uint8_t`, is a sequence of bytes here; the palette entries are C string literals, each
    followed by its NUL terminator. Reading past the end of the input or writing past the end
    of the buffer is undefined behaviour in C, so those are preconditions here. */
module HelloWorldC {
  import opened Wrappers
  import opened Bits
  import Py = HelloWorldPy

  type Byte = x: int | 0 <= x < 256

  /** The palette as C string literals. */
  function PaletteEntry(k: nat): (s: string)
    requires k < |Py.Palette|
    ensures s == Py.Palette[k] + ['\0'] && '\0' !in Py.Palette[k]
    ensures '\0' in s && NulIndex(s) == |Py.Palette[k]|
  {
    var s := Py.Palette[k] + ['\0'];
    NulIndexOf(Py.Palette[k]);
    s
  }

  /** The position of the first NUL: the length `strlen` reports. */
  function NulIndex(s: seq<char>): (n: nat)
    requires '\0' in s
    ensures n < |s| && s[n] == '\0' && '\0' !in s[..n]
  {
    if s[0] == '\0' then 0
    else
      var n := 1 + NulIndex(s[1..]);
      assert s[..n] == [s[0]] + s[1..][..n - 1];
      n
  }

  /** A string followed by a NUL has its length as its `strlen`. */
  lemma NulIndexOf(s: string)
    requires '\0' !in s
    ensures NulIndex(s + ['\0']) == |s|
  {
    assert (s + ['\0'])[..|s|] == s;
  }

  /** `get_bit`: `(stream[pos >> 3] >> (pos & 7)) & 1`. On a `size_t` position, `>> 3` and
      `& 7` are division and remainder by 8; it is the bit the Python version reads. */
  function GetBit(stream: seq<Byte>, pos: nat): (b: int)
    requires pos / 8 < |stream|
    ensures b == 0 || b == 1
    ensures Py.GetBit(stream, pos) == Ok(b)
  {
    stream[pos / 8] / Pow2(pos % 8) % 2
  }

  /** `strcpy_get_len`: copy src up to and including its NUL terminator to dest at off, and
      return the length `strlen` measures. Nothing else in dest changes. */
  method StrcpyGetLen(dest: array<char>, off: nat, src: seq<char>) returns (len: nat)
    requires '\0' in src
    requires off + NulIndex(src) + 1 <= dest.Length
    modifies dest
    ensures len == NulIndex(src)
    ensures dest[..] == old(dest[..off]) + src[..len + 1] + old(dest[off + len + 1..])
  {
    len := 0;
    while src[len] != '\0'
      invariant len <= NulIndex(src)
      decreases NulIndex(src) - len
    {
      len := len + 1;
    }
    for k := 0 to len + 1
      invariant forall j :: 0 <= j < off ==> dest[j] == old(dest[j])
      invariant forall j :: 0 <= j < k ==> dest[off + j] == src[j]
      invariant forall j :: off + k <= j < dest.Length ==> dest[j] == old(dest[j])
    {
      dest[off + k] := src[k];
    }
    ghost var expected := old(dest[..off]) + src[..len + 1] + old(dest[off + len + 1..]);
    assert |expected| == dest.Length;
    forall j | 0 <= j < dest.Length ensures dest[..][j] == expected[j] {
      if j < off {
      } else if j < off + len + 1 {
        assert expected[j] == src[j - off];
      } else {
        assert expected[j] == old(dest[j]);
      }
    }
    assert dest[..] == expected;
  }

  /** The text the first n symbols of the input decode to. */
  function Decoded(input: seq<int>, n: nat): (s: string)
    requires Py.Symbols(input, 0, n).Ok?
  {
    Py.Render(Py.Symbols(input, 0, n).value.0)
  }

  /** The text of k symbols is a prefix of the text of n >= k symbols. */
  lemma DecodedPrefix(input: seq<int>, k: nat, n: nat)
    requires k <= n && Py.Symbols(input, 0, n).Ok?
    ensures Py.Symbols(input, 0, k).Ok?
    ensures |Decoded(input, k)| <= |Decoded(input, n)|
    ensures Decoded(input, n)[..|Decoded(input, k)|] == Decoded(input, k)
  {
    Py.SymbolsPrefix(input, 0, k, n);
    var all := Py.Symbols(input, 0, n).value.0;
    var front, back := all[..k], all[k..];
    assert all == front + back;
    Py.RenderAppend(front, back);
    var text := Py.Render(front);
    assert Py.Render(all) == text + Py.Render(back);
    assert (text + Py.Render(back))[..|text|] == text;
  }

  /** Before the last of len symbols, the next one is readable and its text still fits in
      the whole text. */
  lemma NextSymbol(input: seq<int>, k: nat, len: nat)
    requires k < len && Py.Symbols(input, 0, len).Ok?
    ensures Py.Symbols(input, 0, k).Ok? && Py.Symbols(input, 0, k + 1).Ok?
    ensures Py.Symbol(input, Py.Symbols(input, 0, k).value.1).Ok?
    ensures |Decoded(input, k + 1)| <= |Decoded(input, len)|
  {
    DecodedPrefix(input, k + 1, len);
  }

  /** One symbol more appends its palette entry to the text. */
  lemma DecodedStep(input: seq<int>, k: nat, index: nat, after: nat)
    requires Py.Symbols(input, 0, k).Ok?
    requires Py.Symbol(input, Py.Symbols(input, 0, k).value.1) == Ok((index, after))
    ensures Py.Symbols(input, 0, k + 1).Ok?
    ensures Decoded(input, k + 1) == Decoded(input, k) + Py.Palette[index]
  {
    var indices := Py.Symbols(input, 0, k).value.0;
    assert (indices + [index])[..|indices|] == indices;
  }

  /** The body of `decode`'s loop up to the copy: read the flag bit and the index bit, and
      for a long code a third bit, `2 + ((pind << 1) | bit)`, which is `2 + 2 * pind + bit` for
      a single bit; each read advances iind. */
  method ReadSymbol(input: seq<Byte>, iind: nat) returns (pind: nat, next: nat)
    requires Py.Symbol(input, iind).Ok?
    ensures Py.Symbol(input, iind) == Ok((pind, next))
  {
    next := iind;
    var longCode := GetBit(input, next);
    next := next + 1;
    pind := GetBit(input, next);
    next := next + 1;
    if longCode == 1 {
      pind := 2 + 2 * pind + GetBit(input, next);
      next := next + 1;
    }
  }

  /** The buffer after k symbols, with the bit index and the output index: the text so far
      at the front of the buffer, its NUL after it once something is written, and the rest
      of the buffer as it was. */
  ghost predicate DecodedSoFar(buf: seq<char>, before: seq<char>, input: seq<int>, k: nat,
                               iind: nat, oind: nat)
  {
    Py.Symbols(input, 0, k).Ok? && Py.Symbols(input, 0, k).value.1 == iind &&
    oind == |Decoded(input, k)| && oind < |buf| && |before| == |buf| &&
    buf[..oind] == Decoded(input, k) &&
    (k > 0 ==> buf[oind] == '\0') &&
    (forall j :: oind + (if k > 0 then 1 else 0) <= j < |buf| ==> buf[j] == before[j])
  }

  /** Copying the next symbol's entry, NUL included, at the output index keeps the buffer
      in that shape, one symbol further. */
  lemma CopyStep(prior: seq<char>, after: seq<char>, before: seq<char>, input: seq<int>, k: nat,
                 iind: nat, oind: nat, index: nat, next: nat, n: nat)
    requires DecodedSoFar(prior, before, input, k, iind, oind)
    requires Py.Symbol(input, iind) == Ok((index, next))
    requires Py.Symbols(input, 0, k + 1).Ok? && |Decoded(input, k + 1)| < |prior|
    requires n == NulIndex(PaletteEntry(index))
    requires after == prior[..oind] + PaletteEntry(index)[..n + 1] + prior[oind + n + 1..]
    ensures DecodedSoFar(after, before, input, k + 1, next, oind + n)
  {
    DecodedStep(input, k, index, next);
    var entry := Py.Palette[index];
    assert PaletteEntry(index)[..n + 1] == entry + ['\0'];
    var oind' := oind + n;
    assert after[..oind'] == prior[..oind] + entry;
    assert after[oind'] == '\0';
    forall j | oind' + 1 <= j < |after| ensures after[j] == before[j] {
      assert after[j] == prior[j];
    }
  }

  /** After all len symbols the buffer holds the whole text, its NUL when len > 0, and
      otherwise what it held before. */
  lemma DecodedAll(buf: seq<char>, before: seq<char>, input: seq<int>, len: nat, iind: nat,
                   oind: nat)
    requires DecodedSoFar(buf, before, input, len, iind, oind)
    ensures len > 0 ==> buf[..|Decoded(input, len)| + 1] == Decoded(input, len) + ['\0']
    ensures forall j :: |Decoded(input, len)| + (if len > 0 then 1 else 0) <= j < |buf| ==>
              buf[j] == before[j]
  {
    assert buf[..oind + 1] == buf[..oind] + [buf[oind]];
  }

  /** One pass of `decode`'s loop: read a symbol at iind, copy its palette entry to the
      buffer at oind, and advance both indices. */
  method DecodeOne(out: array<char>, input: seq<Byte>, len: nat, iind: nat, oind: nat,
                   ghost before: seq<char>, ghost k: nat)
    returns (iind': nat, oind': nat)
    requires k < len && Py.Symbols(input, 0, len).Ok? && |Decoded(input, len)| < out.Length
    requires DecodedSoFar(out[..], before, input, k, iind, oind)
    modifies out
    ensures DecodedSoFar(out[..], before, input, k + 1, iind', oind')
  {
    NextSymbol(input, k, len);
    var pind;
    pind, iind' := ReadSymbol(input, iind);
    ghost var prior := out[..];
    var entry := PaletteEntry(pind);
    var n := StrcpyGetLen(out, oind, entry);
    CopyStep(prior, out[..], before, input, k, iind, oind, pind, iind', n);
    oind' := oind + n;
  }

  /** `decode`: for each of the len symbols, read it, then copy its palette entry to the
      buffer at oind and advance oind by the entry's length. The buffer ends up holding the
      decoded text and its NUL; the NUL is written by the last copy, so with len == 0 the
      buffer is untouched. */
  method Decode(out: array<char>, input: seq<Byte>, len: nat)
    requires Py.Symbols(input, 0, len).Ok?
    requires |Decoded(input, len)| < out.Length
    modifies out
    ensures len > 0 ==> out[..|Decoded(input, len)| + 1] == Decoded(input, len) + ['\0']
    ensures forall j :: |Decoded(input, len)| + (if len > 0 then 1 else 0) <= j < out.Length ==>
              out[j] == old(out[j])
  {
    ghost var before := out[..];
    var iind: nat, oind: nat := 0, 0;
    var remaining := len;
    ghost var k: nat := 0;
    while remaining > 0
      invariant k + remaining == len
      invariant DecodedSoFar(out[..], before, input, k, iind, oind)
    {
      remaining := remaining - 1;
      iind, oind := DecodeOne(out, input, len, iind, oind, before, k);
      k := k + 1;
    }
    DecodedAll(out[..], before, input, len, iind, oind);
  }

  /** `puts`: the characters of buf up to its first NUL. */
  method Puts(buf: array<char>) returns (s: string)
    requires '\0' in buf[..]
    ensures s == buf[..NulIndex(buf[..])]
  {
    var n := 0;
    while buf[n] != '\0'
      invariant n <= NulIndex(buf[..])
      invariant forall j :: 0 <= j < n ==> buf[j] != '\0'
      decreases NulIndex(buf[..]) - n
    {
      n := n + 1;
    }
    s := buf[..n];
  }

  /** Decode len symbols of data into buf and print the buffer as a C string. */
  method DecodeAndShow(buf: array<char>, data: seq<Byte>, len: nat) returns (shown: string)
    requires len > 0 && Py.Symbols(data, 0, len).Ok?
    requires |Decoded(data, len)| < buf.Length
    modifies buf
    ensures shown == Decoded(data, len)
  {
    Decode(buf, data, len);
    var text := Decoded(data, len);
    assert buf[..|text| + 1][|text|] == '\0';
    assert '\0' in buf[..] by {
      assert buf[..][|text|] == '\0';
    }
    assert '\0' !in text by {
      Py.RenderNoNul(Py.Symbols(data, 0, len).value.0);
    }
    assert buf[..][..|text|] == text;
    shown := Puts(buf);
  }

  /** `main`: the two messages, decoded one after the other into the same 0x20-character
      buffer and printed. */
  method Messages() returns (first: string, second: string)
    ensures first == "Hello, World!" && second == "lol, Wood!"
  {
    var buffer := new char[0x20];
    Py.DecodeHello();
    Py.DecodeEgg();
    first := DecodeAndShow(buffer, [0x01, 0xEB, 0x38], 9);
    second := DecodeAndShow(buffer, [0x48, 0xF5], 7);
  }
}
