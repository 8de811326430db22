/**
 * The unpacking loop of `parseXBM` (viewer/viewer.js:30-60): the bytes of an X
 * bitmap become the RGBA buffer of an `ImageData` of `width` by `height` pixels.
 *
 * Fetching the file, reading `width`/`height` with `parseInt` and evaluating the
 * byte list are not modelled: the three values are inputs.  The buffer is
 * returned in place of the data URL the canvas produces.
 */
module Xbm {
  import opened JsString

  /** A value of the byte list (`0x00` to `0xff` in an XBM file). */
  type byte = x: int | 0 <= x < 256

  /** `n.toString(2)`: binary digits without leading zeros. */
  function Binary(n: nat): (r: string)
    ensures |r| > 0
    decreases n
  {
    if n < 2 then [Digit(n)] else Binary(n / 2) + [Digit(n % 2)]
  }

  /** `s.padStart(n, c)` with a one-character fill. */
  function PadStart(s: string, n: nat, c: char): (r: string)
    ensures |r| == if |s| < n then n else |s|
  {
    if |s| < n then seq(n - |s|, _ => c) + s else s
  }

  /** `(0xFF - byte).toString(2).padStart(8, '0')`, the string the loop reads bits from. */
  function Bits(x: byte): string {
    PadStart(Binary(255 - x), 8, '0')
  }

  /** `parseInt` of a binary digit. */
  function DigitValue(c: char): int {
    c as int - '0' as int
  }

  /** Bit `j` of `n`, counted from the least significant. */
  function Bit(n: nat, j: nat): (r: nat)
    ensures r < 2
  {
    if j == 0 then n % 2 else Bit(n / 2, j - 1)
  }

  function Pow2(n: nat): (r: nat)
    ensures r > 0
  {
    if n == 0 then 1 else 2 * Pow2(n - 1)
  }

  /** Which rule ends a byte early: the condition of viewer/viewer.js:47, or its corrected form. */
  datatype BreakRule = AsWritten | Corrected

  /** The column of the pixel after one in column `col`. */
  function NextColumn(width: nat, col: nat): nat {
    if col + 1 >= width then 0 else col + 1
  }

  /**
   * Whether the loop stops before drawing bit `j` of a byte when the next pixel
   * is in column `col`: a row starts there and `j == width % 8` bits of the byte
   * were used.  As written this also holds for `j == 0` at the start of every
   * row when `width % 8 == 0`; corrected, rows without padding never stop.
   */
  predicate Breaks(rule: BreakRule, width: nat, col: nat, j: nat) {
    col == 0 && j == width % 8 && (rule == Corrected ==> width % 8 != 0)
  }

  /** The value drawn for bit `j` of a byte: the digit `bits[7 - j]`. */
  function PixelBit(x: byte, j: nat): int
    requires j < 8
  {
    DigitValue(Bits(x)[7 - j])
  }

  /** The pixels one byte draws from bit `j` on, when its next pixel is in column `col`. */
  function ByteRun(rule: BreakRule, width: nat, x: byte, j: nat, col: nat): seq<int>
    requires j <= 8
    decreases 8 - j
  {
    if j == 8 || Breaks(rule, width, col, j) then []
    else [PixelBit(x, j)] + ByteRun(rule, width, x, j + 1, NextColumn(width, col))
  }

  /** The column after the pixels of `ByteRun`. */
  function ByteEnd(rule: BreakRule, width: nat, x: byte, j: nat, col: nat): nat
    requires j <= 8
    decreases 8 - j
  {
    if j == 8 || Breaks(rule, width, col, j) then col
    else ByteEnd(rule, width, x, j + 1, NextColumn(width, col))
  }

  /** The pixel values the loop draws for `bytes` when the next pixel is in column `col`, in drawing order. */
  function Drawn(rule: BreakRule, width: nat, bytes: seq<byte>, col: nat): seq<int>
    decreases |bytes|
  {
    if bytes == [] then []
    else ByteRun(rule, width, bytes[0], 0, col) + Drawn(rule, width, bytes[1..], ByteEnd(rule, width, bytes[0], 0, col))
  }

  /** `bytes.slice(0, n)`. */
  function Used(bytes: seq<byte>, n: nat): (r: seq<byte>)
    ensures |r| == (if |bytes| <= n then |bytes| else n) && r == bytes[..|r|]
  {
    if |bytes| <= n then bytes else bytes[..n]
  }

  /**
   * Entry `k` of the RGBA buffer once the pixels `drawn` are written: a drawn
   * pixel is grey level `255 * v` with alpha 255; the rest keep the zero of a
   * fresh `ImageData`.
   */
  function CanvasAt(drawn: seq<int>, k: nat): int {
    if k / 4 < |drawn| then (if k % 4 == 3 then 255 else 255 * drawn[k / 4]) else 0
  }

  /** The buffer holds the pixels `drawn` and nothing else. */
  ghost predicate Shows(data: array<int>, drawn: seq<int>)
    reads data
  {
    forall k :: 0 <= k < data.Length ==> data[k] == CanvasAt(drawn, k)
  }

  /**
   * The loop of viewer/viewer.js:43-56 under `rule`.  `createImageData` throws
   * when a dimension is zero; writes past the end of the buffer are ignored, as
   * for any typed array.
   */
  method UnpackXbm(width: nat, height: nat, bytes: seq<byte>, rule: BreakRule)
    returns (thrown: bool, data: array<int>)
    ensures fresh(data)
    ensures thrown <==> width == 0 || height == 0
    ensures !thrown ==> data.Length == 4 * width * height
    ensures !thrown ==> forall k :: 0 <= k < data.Length ==>
      data[k] == CanvasAt(Drawn(rule, width, Used(bytes, width * height), 0), k)
  {
    if width == 0 || height == 0 {
      thrown := true;
      data := new int[0];
      return;
    }
    thrown := false;
    data := new int[4 * width * height](_ => 0);
    var used := Used(bytes, width * height);
    var offset := 0;
    ghost var drawn: seq<int> := [];
    ghost var col: nat := 0;
    ghost var total := Drawn(rule, width, used, 0);
    DivUnique(offset / 4, width, 0, 0);
    var i := 0;
    while i < |used|
      invariant 0 <= i <= |used|
      invariant total == drawn + Drawn(rule, width, used[i..], col)
      invariant offset == 4 * |drawn| && col < width && (offset / 4) % width == col
      invariant Shows(data, drawn)
    {
      DrawnStep(rule, width, used, i, col, drawn, total);
      offset, drawn, col := UnpackByte(data, width, used[i], rule, offset, drawn, col);
      i := i + 1;
    }
    assert used[i..] == [];
  }

  /** The pixels of byte `i` come next; the later bytes continue after them. */
  lemma DrawnStep(rule: BreakRule, width: nat, used: seq<byte>, i: nat, col: nat, drawn: seq<int>, total: seq<int>)
    requires i < |used|
    requires total == drawn + Drawn(rule, width, used[i..], col)
    ensures total == (drawn + ByteRun(rule, width, used[i], 0, col)) +
      Drawn(rule, width, used[i + 1..], ByteEnd(rule, width, used[i], 0, col))
  {
    assert used[i..][0] == used[i] && used[i..][1..] == used[i + 1..];
    AppendAssoc(drawn, ByteRun(rule, width, used[i], 0, col),
      Drawn(rule, width, used[i + 1..], ByteEnd(rule, width, used[i], 0, col)));
  }

  /** The body of the outer loop: the pixels of one byte, up to the break. */
  method UnpackByte(data: array<int>, width: nat, x: byte, rule: BreakRule, offset: nat, ghost drawn: seq<int>, ghost col: nat)
    returns (next: nat, ghost after: seq<int>, ghost endCol: nat)
    requires offset == 4 * |drawn| && col < width && (offset / 4) % width == col
    requires Shows(data, drawn)
    modifies data
    ensures after == drawn + ByteRun(rule, width, x, 0, col)
    ensures endCol == ByteEnd(rule, width, x, 0, col)
    ensures next == 4 * |after| && endCol < width && (next / 4) % width == endCol
    ensures Shows(data, after)
  {
    var bits := Bits(x);
    next, after, endCol := offset, drawn, col;
    ghost var total := drawn + ByteRun(rule, width, x, 0, col);
    var b := 7;
    ghost var j: nat := 0;
    while b >= 0
      invariant -1 <= b <= 7 && j == 7 - b
      invariant total == after + ByteRun(rule, width, x, j, endCol)
      invariant ByteEnd(rule, width, x, 0, col) == ByteEnd(rule, width, x, j, endCol)
      invariant next == 4 * |after| && endCol < width && (next / 4) % width == endCol
      invariant Shows(data, after)
    {
      var rowStart := (next / 4) % width == 0;
      assert rowStart <==> endCol == 0;
      if rowStart && 7 - b == width % 8 && (rule == Corrected ==> width % 8 != 0) {
        assert Breaks(rule, width, endCol, j);
        break;
      }
      assert !Breaks(rule, width, endCol, j);
      var v := DigitValue(bits[b]);
      next, after, endCol := DrawPixel(data, width, rule, x, j, v, next, after, endCol, total);
      b := b - 1;
      j := j + 1;
    }
    RunEnd(after, ByteRun(rule, width, x, j, endCol), total);
  }

  /** The body of the inner loop when it does not break: one pixel is drawn. */
  method DrawPixel(data: array<int>, width: nat, rule: BreakRule, x: byte, ghost j: nat, v: int, next: nat,
                   ghost after: seq<int>, ghost col: nat, ghost total: seq<int>)
    returns (next': nat, ghost after': seq<int>, ghost col': nat)
    requires j < 8 && !Breaks(rule, width, col, j) && v == PixelBit(x, j)
    requires total == after + ByteRun(rule, width, x, j, col)
    requires next == 4 * |after| && col < width && (next / 4) % width == col
    requires Shows(data, after)
    modifies data
    ensures total == after' + ByteRun(rule, width, x, j + 1, col')
    ensures ByteEnd(rule, width, x, j, col) == ByteEnd(rule, width, x, j + 1, col')
    ensures next' == 4 * |after'| && col' < width && (next' / 4) % width == col'
    ensures Shows(data, after')
  {
    RunStep(rule, width, x, j, col, after, total);
    PaintPixel(data, next, v);
    CanvasGrows(after, v, data.Length);
    ColumnStep(next / 4, width, col);
    after' := after + [v];
    col' := NextColumn(width, col);
    next' := next + 4;
  }

  /** One drawn pixel moves from the rest of the byte onto the drawn pixels. */
  lemma RunStep(rule: BreakRule, width: nat, x: byte, j: nat, col: nat, after: seq<int>, total: seq<int>)
    requires j < 8 && !Breaks(rule, width, col, j)
    requires total == after + ByteRun(rule, width, x, j, col)
    ensures total == (after + [PixelBit(x, j)]) + ByteRun(rule, width, x, j + 1, NextColumn(width, col))
  {
    AppendAssoc(after, [PixelBit(x, j)], ByteRun(rule, width, x, j + 1, NextColumn(width, col)));
  }

  lemma RunEnd(after: seq<int>, rest: seq<int>, total: seq<int>)
    requires total == after + rest && rest == []
    ensures total == after
  {
  }

  /** The column of pixel `n + 1` follows that of pixel `n`. */
  lemma ColumnStep(n: nat, width: nat, col: nat)
    requires col < width && n % width == col
    ensures (n + 1) % width == NextColumn(width, col)
  {
    var d := n / width;
    DivUnique(n, width, d, col);
    if col + 1 < width {
      DivUnique(n + 1, width, d, col + 1);
    } else {
      MulSucc(width, d);
      DivUnique(n + 1, width, d + 1, 0);
    }
  }

  /** Writes one pixel, channels R, G, B and then alpha, at `offset`. */
  method PaintPixel(data: array<int>, offset: nat, v: int)
    modifies data
    ensures forall k :: 0 <= k < data.Length ==>
      data[k] == if offset <= k < offset + 4 then (if k == offset + 3 then 255 else v * 255) else old(data[k])
  {
    for c := 0 to 3
      invariant forall k :: 0 <= k < data.Length ==>
        data[k] == if offset <= k < offset + c then v * 255 else old(data[k])
    {
      if offset + c < data.Length {
        data[offset + c] := v * 255;
      }
    }
    if offset + 3 < data.Length {
      data[offset + 3] := 255;
    }
  }

  /** Drawing one more pixel changes exactly its four buffer entries. */
  lemma CanvasGrows(drawn: seq<int>, v: int, n: nat)
    ensures forall k :: 0 <= k < n ==>
      CanvasAt(drawn + [v], k) ==
        if 4 * |drawn| <= k < 4 * |drawn| + 4 then (if k == 4 * |drawn| + 3 then 255 else v * 255) else CanvasAt(drawn, k)
  {
  }

  /* The bits of a byte. */

  /** Digit `j` from the right of `n.toString(2)` is bit `j` of `n`. */
  lemma {:induction false} BinaryDigits(n: nat, j: nat)
    requires j < |Binary(n)|
    ensures Binary(n)[|Binary(n)| - 1 - j] == Digit(Bit(n, j))
    decreases n
  {
    if n >= 2 && j > 0 {
      BinaryDigits(n / 2, j - 1);
    }
  }

  /** Bits beyond the digits of `n.toString(2)` are zero. */
  lemma {:induction false} BitsAbove(n: nat, j: nat)
    requires |Binary(n)| <= j
    ensures Bit(n, j) == 0
    decreases n
  {
    if n < 2 {
      BitZero(j - 1);
    } else {
      BitsAbove(n / 2, j - 1);
    }
  }

  lemma {:induction false} BitZero(j: nat)
    ensures Bit(0, j) == 0
  {
    if j > 0 {
      BitZero(j - 1);
    }
  }

  /** A number below `2^m` has at most `m` binary digits. */
  lemma {:induction false} BinaryShort(n: nat, m: nat)
    requires 1 <= m && n < Pow2(m)
    ensures |Binary(n)| <= m
    decreases n
  {
    if n >= 2 {
      BinaryShort(n / 2, m - 1);
    }
  }

  /** Subtracting from `2^m - 1` flips each of the low `m` bits. */
  lemma {:induction false} BitComplement(b: nat, m: nat, j: nat)
    requires b < Pow2(m) && j < m
    ensures Bit(Pow2(m) - 1 - b, j) == 1 - Bit(b, j)
    decreases j
  {
    assert Pow2(m) == 2 * Pow2(m - 1);
    if j > 0 {
      assert (Pow2(m) - 1 - b) / 2 == Pow2(m - 1) - 1 - b / 2;
      BitComplement(b / 2, m - 1, j - 1);
    }
  }

  lemma ByteBound()
    ensures Pow2(8) == 256
  {
  }

  /** The digit `bits[7 - j]` is the complement of bit `j` of the byte: a set bit draws black. */
  lemma InvertedBits(x: byte, j: nat)
    requires j < 8
    ensures PixelBit(x, j) == 1 - Bit(x, j)
  {
    BitsDigit(x, j);
    DigitRoundTrip(Bit(255 - x, j));
    ComplementByte(x, j);
  }

  /** `bits[7 - j]` is the digit of bit `j` of `0xFF - byte`. */
  lemma BitsDigit(x: byte, j: nat)
    requires j < 8
    ensures Bits(x)[7 - j] == Digit(Bit(255 - x, j))
  {
    var n := 255 - x;
    ByteBound();
    BinaryShort(n, 8);
    var s := Binary(n);
    PadStartIndex(s, 8, '0', 7 - j);
    if j < |s| {
      BinaryDigits(n, j);
    } else {
      BitsAbove(n, j);
    }
  }

  /** Character `i` of `s.padStart(n, c)`. */
  lemma PadStartIndex(s: string, n: nat, c: char, i: nat)
    requires |s| <= n && i < n
    ensures PadStart(s, n, c)[i] == if i < n - |s| then c else s[i - (n - |s|)]
  {
  }

  lemma DigitRoundTrip(b: nat)
    requires b < 2
    ensures DigitValue(Digit(b)) == b
  {
  }

  /** Bit `j` of `0xFF - byte` is the complement of bit `j` of the byte. */
  lemma ComplementByte(x: byte, j: nat)
    requires j < 8
    ensures Bit(255 - x, j) == 1 - Bit(x, j)
  {
    ByteBound();
    BitComplement(x, 8, j);
  }

  /* What is drawn. */

  /** Every drawn value is 0 or 1. */
  lemma {:induction false} ByteRunBinary(rule: BreakRule, width: nat, x: byte, j: nat, col: nat)
    requires j <= 8
    ensures forall i :: 0 <= i < |ByteRun(rule, width, x, j, col)| ==> ByteRun(rule, width, x, j, col)[i] in {0, 1}
    decreases 8 - j
  {
    if j < 8 && !Breaks(rule, width, col, j) {
      ByteRunBinary(rule, width, x, j + 1, NextColumn(width, col));
      InvertedBits(x, j);
    }
  }

  lemma {:induction false} DrawnBinary(rule: BreakRule, width: nat, bytes: seq<byte>, col: nat)
    ensures forall i :: 0 <= i < |Drawn(rule, width, bytes, col)| ==> Drawn(rule, width, bytes, col)[i] in {0, 1}
    decreases |bytes|
  {
    if bytes != [] {
      ByteRunBinary(rule, width, bytes[0], 0, col);
      DrawnBinary(rule, width, bytes[1..], ByteEnd(rule, width, bytes[0], 0, col));
    }
  }

  /** Channel `c` of pixel `p` in the buffer. */
  lemma CanvasEntry(drawn: seq<int>, k: nat, p: nat, c: nat)
    requires c < 4 && k == 4 * p + c
    ensures CanvasAt(drawn, k) == if p < |drawn| then (if c == 3 then 255 else 255 * drawn[p]) else 0
  {
    assert k / 4 == p && k % 4 == c;
  }

  /**
   * Every pixel of the buffer is either drawn, opaque and black or white
   * (R = G = B), or untouched and fully transparent.
   */
  lemma PixelShape(rule: BreakRule, width: nat, bytes: seq<byte>, p: nat)
    ensures var drawn := Drawn(rule, width, bytes, 0);
      if p < |drawn| then
        CanvasAt(drawn, 4 * p + 3) == 255 &&
        CanvasAt(drawn, 4 * p) == CanvasAt(drawn, 4 * p + 1) == CanvasAt(drawn, 4 * p + 2) &&
        (CanvasAt(drawn, 4 * p) == 0 || CanvasAt(drawn, 4 * p) == 255)
      else
        CanvasAt(drawn, 4 * p) == CanvasAt(drawn, 4 * p + 1) == CanvasAt(drawn, 4 * p + 2) == CanvasAt(drawn, 4 * p + 3) == 0
  {
    var drawn := Drawn(rule, width, bytes, 0);
    DrawnBinary(rule, width, bytes, 0);
    CanvasEntry(drawn, 4 * p, p, 0);
    CanvasEntry(drawn, 4 * p + 1, p, 1);
    CanvasEntry(drawn, 4 * p + 2, p, 2);
    CanvasEntry(drawn, 4 * p + 3, p, 3);
  }

  /* The loop as written. */

  /** When `width % 8 == 0` the break fires on the first bit of every byte at a row start: nothing is drawn. */
  lemma {:induction false} AlignedDrawsNothing(width: nat, bytes: seq<byte>)
    requires width % 8 == 0
    ensures Drawn(AsWritten, width, bytes, 0) == []
    decreases |bytes|
  {
    if bytes != [] {
      assert Breaks(AsWritten, width, 0, 0);
      AlignedDrawsNothing(width, bytes[1..]);
    }
  }

  /** The offset stays at 0 exactly when there are no bytes or `width % 8 == 0`. */
  lemma NothingDrawnIff(width: nat, bytes: seq<byte>)
    ensures Drawn(AsWritten, width, bytes, 0) == [] <==> bytes == [] || width % 8 == 0
  {
    if width % 8 == 0 {
      AlignedDrawsNothing(width, bytes);
    } else if bytes != [] {
      assert !Breaks(AsWritten, width, 0, 0);
      assert |ByteRun(AsWritten, width, bytes[0], 0, 0)| > 0;
    }
  }

  /** With row padding the two rules differ nowhere. */
  lemma {:induction false} ByteRunsAgree(width: nat, x: byte, j: nat, col: nat)
    requires width % 8 != 0 && j <= 8
    ensures ByteRun(AsWritten, width, x, j, col) == ByteRun(Corrected, width, x, j, col)
    ensures ByteEnd(AsWritten, width, x, j, col) == ByteEnd(Corrected, width, x, j, col)
    decreases 8 - j
  {
    if j < 8 {
      ByteRunsAgree(width, x, j + 1, NextColumn(width, col));
    }
  }

  lemma {:induction false} RulesAgree(width: nat, bytes: seq<byte>, col: nat)
    requires width % 8 != 0
    ensures Drawn(AsWritten, width, bytes, col) == Drawn(Corrected, width, bytes, col)
    decreases |bytes|
  {
    if bytes != [] {
      ByteRunsAgree(width, bytes[0], 0, col);
      RulesAgree(width, bytes[1..], ByteEnd(Corrected, width, bytes[0], 0, col));
    }
  }

  /* The X bitmap format, and the corrected loop against it. */

  /** Bytes per row of an X bitmap: rows are padded to whole bytes. */
  function RowBytes(width: nat): nat {
    (width + 7) / 8
  }

  /** The number of pixels of a row that byte `q` of the row holds. */
  function RunLength(width: nat, q: nat): nat
    requires 8 * q < width
  {
    if width - 8 * q < 8 then width - 8 * q else 8
  }

  /** Pixels for bits `j` up to `n` of a byte, least significant first; a set bit is black (0). */
  function BitsFrom(x: byte, j: nat, n: nat): (r: seq<int>)
    requires n <= 8
    ensures |r| == if j < n then n - j else 0
    decreases n - j
  {
    if j >= n then [] else [1 - Bit(x, j)] + BitsFrom(x, j + 1, n)
  }

  /** The pixels of a row from its byte `q` on. */
  function RowFrom(width: nat, row: seq<byte>, q: nat): (r: seq<int>)
    requires |row| == RowBytes(width) && q <= RowBytes(width)
    ensures |r| == if q < RowBytes(width) then width - 8 * q else 0
    decreases RowBytes(width) - q
  {
    if q == RowBytes(width) then [] else BitsFrom(row[q], 0, RunLength(width, q)) + RowFrom(width, row, q + 1)
  }

  /** The picture an X bitmap describes: its complete rows, one after another. */
  function Picture(width: nat, bytes: seq<byte>): seq<int>
    requires width > 0
    decreases |bytes|
  {
    var n := RowBytes(width);
    if |bytes| < n then [] else RowPixels(width, bytes[..n]) + Picture(width, bytes[n..])
  }

  /** The pixels of one row, by position: pixel `x` is the complement of bit `x % 8` of byte `x / 8`. */
  function RowPixels(width: nat, row: seq<byte>): (r: seq<int>)
    requires |row| == RowBytes(width)
    ensures |r| == width
  {
    seq(width, x requires 0 <= x < width => 1 - Bit(row[x / 8], x % 8))
  }

  lemma MulSucc(a: nat, b: nat)
    ensures a * (b + 1) == a * b + a
  {
  }

  lemma MulAtLeast(w: nat, k: int)
    requires k >= 1
    ensures w * k >= w
  {
  }

  /** Euclidean division is unique. */
  lemma DivUnique(x: int, w: nat, d: int, m: int)
    requires w > 0 && x == w * d + m && 0 <= m < w
    ensures x / w == d && x % w == m
  {
    var d', m' := x / w, x % w;
    assert w * (d - d') == m' - m;
    if d > d' {
      MulAtLeast(w, d - d');
    } else if d < d' {
      MulAtLeast(w, d' - d);
    }
  }

  /** Corrected, byte `q` of a row draws its `RunLength` pixels and stops at the end of the row. */
  lemma {:induction false} ByteRunInRow(width: nat, x: byte, q: nat, j: nat, col: nat)
    requires 8 * q < width && j <= RunLength(width, q)
    requires col == if 8 * q + j < width then 8 * q + j else 0
    ensures ByteRun(Corrected, width, x, j, col) == BitsFrom(x, j, RunLength(width, q))
    ensures ByteEnd(Corrected, width, x, j, col) == if 8 * q + RunLength(width, q) < width then 8 * q + RunLength(width, q) else 0
    decreases 8 - j
  {
    if j < RunLength(width, q) {
      assert !Breaks(Corrected, width, col, j);
      InvertedBits(x, j);
      ByteRunInRow(width, x, q, j + 1, NextColumn(width, col));
      assert ByteRun(Corrected, width, x, j, col) == [PixelBit(x, j)] + ByteRun(Corrected, width, x, j + 1, NextColumn(width, col));
    } else {
      RunStops(width, q);
    }
  }

  /** Byte `q` stops after `RunLength` bits: the byte is used up, or the row ends on the padding. */
  lemma RunStops(width: nat, q: nat)
    requires 8 * q < width
    ensures RunLength(width, q) == 8 || (8 * q + RunLength(width, q) == width && width % 8 == RunLength(width, q) != 0)
  {
    if width - 8 * q < 8 {
      DivUnique(width, 8, q, width - 8 * q);
    }
  }

  /** Corrected, the loop draws a row from its byte `q` on and ends at the start of the next row. */
  lemma {:induction false} RowDrawn(width: nat, row: seq<byte>, rest: seq<byte>, q: nat)
    requires |row| == RowBytes(width) && q < RowBytes(width)
    ensures Drawn(Corrected, width, row[q..] + rest, 8 * q) == RowFrom(width, row, q) + Drawn(Corrected, width, rest, 0)
    decreases RowBytes(width) - q
  {
    var run := BitsFrom(row[q], 0, RunLength(width, q));
    assert RowFrom(width, row, q) == run + RowFrom(width, row, q + 1);
    if q + 1 < RowBytes(width) {
      RowByte(width, row, rest, q, 8 * (q + 1));
      RowDrawn(width, row, rest, q + 1);
      AppendAssoc(run, RowFrom(width, row, q + 1), Drawn(Corrected, width, rest, 0));
    } else {
      RowByte(width, row, rest, q, 0);
      assert row[q + 1..] + rest == rest;
      assert RowFrom(width, row, q + 1) == [];
      assert run + [] == run;
    }
  }

  /** Byte `q` of a row draws its pixels; the next byte starts in column `end`. */
  lemma RowByte(width: nat, row: seq<byte>, rest: seq<byte>, q: nat, end: nat)
    requires |row| == RowBytes(width) && q < RowBytes(width)
    requires end == if q + 1 < RowBytes(width) then 8 * (q + 1) else 0
    ensures Drawn(Corrected, width, row[q..] + rest, 8 * q) ==
      BitsFrom(row[q], 0, RunLength(width, q)) + Drawn(Corrected, width, row[q + 1..] + rest, end)
  {
    var bytes := row[q..] + rest;
    assert bytes[0] == row[q] && bytes[1..] == row[q + 1..] + rest;
    RowEnds(width, q);
    ByteRunInRow(width, row[q], q, 0, 8 * q);
    DrawnCons(Corrected, width, bytes, 8 * q);
    assert ByteRun(Corrected, width, bytes[0], 0, 8 * q) == BitsFrom(row[q], 0, RunLength(width, q));
    assert ByteEnd(Corrected, width, bytes[0], 0, 8 * q) == end;
    assert Drawn(Corrected, width, bytes[1..], end) == Drawn(Corrected, width, row[q + 1..] + rest, end);
  }

  /** Byte `q` of a row lies inside the row, and the row goes on after it exactly when 8 more pixels fit. */
  lemma RowEnds(width: nat, q: nat)
    requires q < RowBytes(width)
    ensures 8 * q < width
    ensures q + 1 < RowBytes(width) <==> 8 * q + RunLength(width, q) < width
    ensures q + 1 < RowBytes(width) ==> RunLength(width, q) == 8
  {
  }

  lemma DrawnCons(rule: BreakRule, width: nat, bytes: seq<byte>, col: nat)
    requires bytes != []
    ensures Drawn(rule, width, bytes, col) ==
      ByteRun(rule, width, bytes[0], 0, col) + Drawn(rule, width, bytes[1..], ByteEnd(rule, width, bytes[0], 0, col))
  {
  }

  lemma AppendAssoc(a: seq<int>, b: seq<int>, c: seq<int>)
    ensures a + (b + c) == (a + b) + c
  {
  }

  /** Corrected, the loop draws the picture (and then whatever an incomplete last row gives). */
  lemma {:induction false} PictureDrawn(width: nat, bytes: seq<byte>)
    requires width > 0
    ensures Picture(width, bytes) <= Drawn(Corrected, width, bytes, 0)
    decreases |bytes|
  {
    var n := RowBytes(width);
    if n <= |bytes| {
      var row := bytes[..n];
      assert row[0..] + bytes[n..] == bytes;
      RowDrawn(width, row, bytes[n..], 0);
      RowFromPixels(width, row);
      PictureDrawn(width, bytes[n..]);
    }
  }

  /** Bit `i` of a run of bits. */
  lemma {:induction false} BitsAt(x: byte, j: nat, n: nat, i: nat)
    requires n <= 8 && j + i < n
    ensures BitsFrom(x, j, n)[i] == 1 - Bit(x, j + i)
    decreases i
  {
    if i > 0 {
      BitsAt(x, j + 1, n, i - 1);
    }
  }

  /** Pixel `x` of a row is the complement of bit `x % 8` of its byte `x / 8`. */
  lemma {:induction false} RowPixel(width: nat, row: seq<byte>, q: nat, x: nat)
    requires |row| == RowBytes(width) && q < RowBytes(width) && 8 * q <= x < width
    ensures x / 8 < |row| && RowFrom(width, row, q)[x - 8 * q] == 1 - Bit(row[x / 8], x % 8)
    decreases RowBytes(width) - q
  {
    RowEnds(width, q);
    if x < 8 * q + RunLength(width, q) {
      DivUnique(x, 8, q, x - 8 * q);
      BitsAt(row[q], 0, RunLength(width, q), x - 8 * q);
    } else {
      RowPixel(width, row, q + 1, x);
    }
  }

  /** Drawn byte by byte, a row has the pixels `RowPixels` gives by position. */
  lemma RowFromPixels(width: nat, row: seq<byte>)
    requires |row| == RowBytes(width) && width > 0
    ensures RowFrom(width, row, 0) == RowPixels(width, row)
  {
    forall x | 0 <= x < width
      ensures RowFrom(width, row, 0)[x] == RowPixels(width, row)[x]
    {
      RowPixel(width, row, 0, x);
    }
  }

  /** Where row `y` starts when every row has `n` entries, without multiplying. */
  function RowStart(n: nat, y: nat): nat {
    if y == 0 then 0 else n + RowStart(n, y - 1)
  }

  lemma {:induction false} RowStartMul(n: nat, y: nat)
    ensures RowStart(n, y) == n * y
  {
    if y > 0 {
      RowStartMul(n, y - 1);
      MulSucc(n, y - 1);
    }
  }

  /** The bytes of row `y` of an X bitmap. */
  function RowOf(width: nat, bytes: seq<byte>, y: nat): (r: seq<byte>)
    requires RowStart(RowBytes(width), y) + RowBytes(width) <= |bytes|
    ensures |r| == RowBytes(width)
  {
    bytes[RowStart(RowBytes(width), y)..RowStart(RowBytes(width), y) + RowBytes(width)]
  }

  /** Row `y` of the picture is what row `y`'s bytes draw. */
  lemma {:induction false} PictureRow(width: nat, bytes: seq<byte>, y: nat)
    requires width > 0 && RowStart(width, y) + width <= |Picture(width, bytes)|
    ensures RowStart(RowBytes(width), y) + RowBytes(width) <= |bytes|
    ensures Picture(width, bytes)[RowStart(width, y)..RowStart(width, y) + width] == RowPixels(width, RowOf(width, bytes, y))
    decreases y
  {
    var n := RowBytes(width);
    RowsFit(width, bytes, y);
    var p := Picture(width, bytes);
    if y == 0 {
      FirstRow(width, bytes);
      assert RowStart(width, y) == 0;
      assert p[0..0 + width] == p[..width];
      assert RowOf(width, bytes, 0) == bytes[..n];
    } else {
      var i := RowStart(width, y - 1);
      assert RowStart(width, y) == width + i;
      LaterRows(width, bytes, i);
      LaterRow(width, bytes, y);
      PictureRow(width, bytes[n..], y - 1);
      var p' := Picture(width, bytes[n..]);
      assert p[width + i..width + i + width] == p'[i..i + width];
      assert p'[i..i + width] == RowPixels(width, RowOf(width, bytes[n..], y - 1));
    }
  }

  /** A picture with `y + 1` rows comes from at least `y + 1` rows of bytes. */
  lemma {:induction false} RowsFit(width: nat, bytes: seq<byte>, y: nat)
    requires width > 0 && RowStart(width, y) + width <= |Picture(width, bytes)|
    ensures RowStart(RowBytes(width), y) + RowBytes(width) <= |bytes|
    decreases y
  {
    PictureCons(width, bytes);
    if y > 0 {
      RowsFit(width, bytes[RowBytes(width)..], y - 1);
    }
  }

  /** The first `width` pixels of a picture are its first row. */
  lemma FirstRow(width: nat, bytes: seq<byte>)
    requires width > 0 && width <= |Picture(width, bytes)|
    ensures RowBytes(width) <= |bytes|
    ensures Picture(width, bytes)[..width] == RowPixels(width, bytes[..RowBytes(width)])
  {
    var n := RowBytes(width);
    PictureCons(width, bytes);
    SliceBefore(RowPixels(width, bytes[..n]), Picture(width, bytes[n..]));
  }

  /** After the first row, a picture's pixels are those of the remaining bytes. */
  lemma LaterRows(width: nat, bytes: seq<byte>, i: nat)
    requires width > 0 && width + i + width <= |Picture(width, bytes)|
    ensures RowBytes(width) <= |bytes|
    ensures i + width <= |Picture(width, bytes[RowBytes(width)..])|
    ensures Picture(width, bytes)[width + i..width + i + width] == Picture(width, bytes[RowBytes(width)..])[i..i + width]
  {
    var n := RowBytes(width);
    PictureCons(width, bytes);
    SliceAfter(RowPixels(width, bytes[..n]), Picture(width, bytes[n..]), i, width);
  }

  lemma SliceBefore(a: seq<int>, b: seq<int>)
    ensures (a + b)[..|a|] == a
  {
  }

  lemma SliceAfter(a: seq<int>, b: seq<int>, i: nat, k: nat)
    requires i + k <= |b|
    ensures (a + b)[|a| + i..|a| + i + k] == b[i..i + k]
  {
  }

  /** Row `y > 0` of a bitmap is row `y - 1` of the bytes after its first row. */
  lemma LaterRow(width: nat, bytes: seq<byte>, y: nat)
    requires y > 0 && RowStart(RowBytes(width), y) + RowBytes(width) <= |bytes|
    ensures RowBytes(width) <= |bytes|
    ensures RowStart(RowBytes(width), y - 1) + RowBytes(width) <= |bytes| - RowBytes(width)
    ensures RowOf(width, bytes, y) == RowOf(width, bytes[RowBytes(width)..], y - 1)
  {
    var n := RowBytes(width);
    var i := RowStart(n, y - 1);
    assert RowStart(n, y) == n + i;
    assert bytes[n..][i..i + n] == bytes[n + i..n + i + n];
  }

  /** A non-empty picture is its first row followed by the picture of the remaining bytes. */
  lemma PictureCons(width: nat, bytes: seq<byte>)
    requires width > 0 && Picture(width, bytes) != []
    ensures RowBytes(width) <= |bytes|
    ensures Picture(width, bytes) == RowPixels(width, bytes[..RowBytes(width)]) + Picture(width, bytes[RowBytes(width)..])
    ensures |Picture(width, bytes)| == width + |Picture(width, bytes[RowBytes(width)..])|
  {
  }

  /** Bytes for `rows` rows give a picture of at least `rows` rows. */
  lemma {:induction false} PictureLength(width: nat, bytes: seq<byte>, rows: nat)
    requires width > 0 && RowStart(RowBytes(width), rows) <= |bytes|
    ensures RowStart(width, rows) <= |Picture(width, bytes)|
    decreases rows
  {
    if rows > 0 {
      PictureLength(width, bytes[RowBytes(width)..], rows - 1);
    }
  }

  lemma MulLe(a: nat, b: nat, c: nat)
    requires a <= b
    ensures a * c <= b * c
  {
  }

  /**
   * `drawn` shows the X bitmap `bytes` of `height` rows of `width` pixels: row
   * `y` of the canvas (pixels `RowStart(width, y)` on, that is `width * y` on,
   * by `RowStartMul`) holds the pixels of row `y` of the bytes, by position.
   */
  predicate ShowsBitmap(drawn: seq<int>, width: nat, height: nat, bytes: seq<byte>) {
    forall y :: 0 <= y < height ==>
      RowStart(width, y) + width <= |drawn| && RowStart(RowBytes(width), y) + RowBytes(width) <= |bytes| &&
      drawn[RowStart(width, y)..RowStart(width, y) + width] == RowPixels(width, RowOf(width, bytes, y))
  }

  /** Corrected, an X bitmap with its `height` rows of `RowBytes(width)` bytes is drawn in full. */
  lemma XbmPicture(width: nat, height: nat, bytes: seq<byte>)
    requires width > 0 && RowBytes(width) * height <= |bytes|
    ensures ShowsBitmap(Drawn(Corrected, width, Used(bytes, width * height), 0), width, height, bytes)
  {
    var u := Used(bytes, width * height);
    MulLe(RowBytes(width), width, height);
    RowStartMul(RowBytes(width), height);
    PictureDrawn(width, u);
    BitmapOfPicture(width, height, bytes, u, Drawn(Corrected, width, u, 0));
  }

  /** Anything that starts with the picture of (a prefix of) `bytes` shows the bitmap. */
  lemma BitmapOfPicture(width: nat, height: nat, bytes: seq<byte>, u: seq<byte>, drawn: seq<int>)
    requires width > 0 && RowStart(RowBytes(width), height) <= |u| && u <= bytes
    requires Picture(width, u) <= drawn
    ensures ShowsBitmap(drawn, width, height, bytes)
  {
    PictureLength(width, u, height);
    forall y | 0 <= y < height
      ensures RowStart(width, y) + width <= |drawn| && RowStart(RowBytes(width), y) + RowBytes(width) <= |bytes|
      ensures drawn[RowStart(width, y)..RowStart(width, y) + width] == RowPixels(width, RowOf(width, bytes, y))
    {
      InsideRows(width, height, y);
      PictureRow(width, u, y);
      var k, i := RowStart(width, y), RowStart(RowBytes(width), y);
      assert drawn[k..k + width] == Picture(width, u)[k..k + width];
      assert RowOf(width, u, y) == RowOf(width, bytes, y);
    }
  }

  /** A single pixel of a canvas that shows a bitmap. */
  lemma PixelOfRows(drawn: seq<int>, width: nat, height: nat, bytes: seq<byte>, y: nat, x: nat)
    requires ShowsBitmap(drawn, width, height, bytes) && y < height && x < width
    ensures width * y + x < |drawn| && RowBytes(width) * y + x / 8 < |bytes|
    ensures drawn[width * y + x] == 1 - Bit(bytes[RowBytes(width) * y + x / 8], x % 8)
  {
    var k, i := RowStart(width, y), RowStart(RowBytes(width), y);
    assert drawn[k..k + width] == RowPixels(width, RowOf(width, bytes, y));
    assert drawn[k + x] == RowPixels(width, RowOf(width, bytes, y))[x];
    assert RowOf(width, bytes, y)[x / 8] == bytes[i + x / 8];
    RowStartMul(width, y);
    RowStartMul(RowBytes(width), y);
  }

  /** Row `y < height` ends within the first `height` rows. */
  lemma {:induction false} InsideRows(width: nat, height: nat, y: nat)
    requires y < height
    ensures RowStart(width, y) + width <= RowStart(width, height)
    decreases height
  {
    if y + 1 < height {
      InsideRows(width, height - 1, y);
    }
  }

  /** As written, the same holds whenever rows are padded (`width % 8 != 0`). */
  lemma PaddedPicture(width: nat, height: nat, bytes: seq<byte>)
    requires width > 0 && width % 8 != 0 && RowBytes(width) * height <= |bytes|
    ensures ShowsBitmap(Drawn(AsWritten, width, Used(bytes, width * height), 0), width, height, bytes)
  {
    RulesAgree(width, Used(bytes, width * height), 0);
    XbmPicture(width, height, bytes);
  }
}
