/** Packing an 8-bit grayscale image into 2 bits per pixel, four pixels to
    a byte, earlier pixels in the higher bits, every row starting on a fresh
    byte (the sample layout of section 8.9.3 of ISO 32000-1). `Pack` is the
    row-by-row reference; `Encode` is the encoder's single flat loop over
    all pixels, proved to produce the same bytes. */
module GrayPacking {

  type byte = x: int | 0 <= x < 256

  /** `pval/64`: the two high bits of an 8-bit gray level. */
  function Sample(p: byte): (s: int)
    ensures 0 <= s < 4
    ensures 64 * s <= p < 64 * s + 64
  {
    p / 64
  }

  /** The samples of `g` as base-4 digits, the first pixel the most
      significant. */
  function GroupValue(g: seq<byte>): nat
  {
    if g == [] then 0 else GroupValue(g[..|g| - 1]) * 4 + Sample(g[|g| - 1])
  }

  /** The `i`-th sample of a group, zero past its end. */
  function Digit(g: seq<byte>, i: nat): (d: int)
    ensures 0 <= d < 4
  {
    if i < |g| then Sample(g[i]) else 0
  }

  /** One output byte: up to four samples, left-aligned, the first pixel
      in the two highest bits; missing samples are zero. */
  function PackGroup(g: seq<byte>): byte
    requires 1 <= |g| <= 4
  {
    64 * Digit(g, 0) + 16 * Digit(g, 1) + 4 * Digit(g, 2) + Digit(g, 3)
  }

  /** A row's bytes: its pixels in groups of four, the last group possibly
      shorter. */
  function PackRow(row: seq<byte>): seq<byte>
  {
    if row == [] then []
    else if |row| <= 4 then [PackGroup(row)]
    else [PackGroup(row[..4])] + PackRow(row[4..])
  }

  /** The image's bytes, row after row of `width` pixels; `px` holds the
      pixels in row-major order, as `getdata()` yields them. */
  function Pack(px: seq<byte>, width: nat): seq<byte>
    decreases |px|
  {
    if width == 0 || px == [] then []
    else if |px| <= width then PackRow(px)
    else PackRow(px[..width]) + Pack(px[width..], width)
  }

  /** The encoder's loop variables: the samples collected so far for the
      current byte (`np`), the bits of that byte still free (`shift_count`)
      and the bytes emitted (`pix2`). */
  datatype Packer = Packer(np: nat, shiftCount: nat, pix2: seq<int>)

  const Fresh := Packer(0, 8, [])

  /** Between iterations `shift_count` is 8, 6, 4 or 2. */
  predicate Between(st: Packer)
  {
    2 <= st.shiftCount <= 8 && st.shiftCount % 2 == 0
  }

  /** One iteration for the pixel `pval` at index `p`, as written:
      `np <<= 2; np |= pval / 64; shift_count -= 2`, then, when the byte is
      full or the row ends (`p % width == width - 1`), append
      `np << shift_count` and start a fresh byte. */
  function LoopBody(st: Packer, pval: byte, p: nat, width: nat): Packer
    requires width > 0 && Between(st)
  {
    var np := BitOr(ShiftLeft(st.np, 2), pval / 64);
    var shiftCount := st.shiftCount - 2;
    if LastColumn(p, width) || shiftCount == 0 then
      Packer(0, 8, st.pix2 + [ShiftLeft(np, shiftCount)])
    else
      Packer(np, shiftCount, st.pix2)
  }

  /** The same iteration in plain arithmetic, which `LoopBodyIsStep`
      shows equal to `LoopBody` on every input: shifting a sample in is
      `4 * np + sample`, and the final shift is `Align`. */
  function Step(st: Packer, pval: byte, p: nat, width: nat): (r: Packer)
    requires width > 0 && Between(st)
    ensures Between(r)
  {
    var np := 4 * st.np + Sample(pval);
    var shiftCount := st.shiftCount - 2;
    if LastColumn(p, width) || shiftCount == 0 then
      Packer(0, 8, st.pix2 + [Align(np, shiftCount)])
    else
      Packer(np, shiftCount, st.pix2)
  }

  /** `np << shift_count` for the shifts the loop can reach. */
  function Align(np: nat, shiftCount: nat): nat
    requires shiftCount <= 6 && shiftCount % 2 == 0
  {
    if shiftCount == 0 then np
    else if shiftCount == 2 then 4 * np
    else if shiftCount == 4 then 16 * np
    else 64 * np
  }

  /** Python's `<<` and `|` in the loop body compute what `Step`'s
      arithmetic does. */
  lemma LoopBodyIsStep(st: Packer, pval: byte, p: nat, width: nat)
    requires width > 0 && Between(st)
    ensures LoopBody(st, pval, p, width) == Step(st, pval, p, width)
  {
    var np := 4 * st.np + Sample(pval);
    ShiftInSample(st.np, Sample(pval));
    ShiftIsAlign(np, st.shiftCount - 2);
  }

  /** `x << k` is `Align(x, k)` for the even shifts up to 6. */
  lemma ShiftIsAlign(x: nat, k: nat)
    requires k <= 6 && k % 2 == 0
    ensures ShiftLeft(x, k) == Align(x, k)
  {
    ShiftLeftMultiplies(x, k);
    assert Pow2(2) == 4 && Pow2(4) == 16 && Pow2(6) == 64;
  }

  /** The loop from pixel `p` on; by `LoopBodyIsStep` each iteration is
      the loop body as written. */
  function Run(px: seq<byte>, width: nat, p: nat, st: Packer): Packer
    requires p <= |px| && (|px| > 0 ==> width > 0) && Between(st)
    decreases |px| - p
  {
    if p == |px| then st else Run(px, width, p + 1, Step(st, px[p], p, width))
  }

  lemma RunStep(px: seq<byte>, width: nat, p: nat, st: Packer)
    requires p < |px| && width > 0 && Between(st)
    ensures Run(px, width, p, st) == Run(px, width, p + 1, Step(st, px[p], p, width))
  {
  }

  lemma RunDone(px: seq<byte>, width: nat, st: Packer)
    requires (|px| > 0 ==> width > 0) && Between(st)
    ensures Run(px, width, |px|, st) == st
  {
  }

  /** The bytes the encoder produces for an image of `width` by `height`
      pixels; `px` holds them in row-major order, as `getdata()` yields
      them. */
  function Encode(px: seq<byte>, width: nat, height: nat): seq<int>
    requires |px| == width * height
  {
    assert |px| > 0 ==> width > 0;
    Run(px, width, 0, Fresh).pix2
  }

  /** The flat loop emits exactly the row-by-row packing: one byte per
      group of four pixels, a short group at a row's end, and every value
      fits in a byte. */
  lemma EncodeIsPack(px: seq<byte>, width: nat, height: nat)
    requires |px| == width * height
    ensures Encode(px, width, height) == Pack(px, width)
  {
    ImageIsWholeRows(width, height);
    RowsFrom(px, width, 0, []);
    assert px[0..] == px;
  }

  /** `n` pixels make whole rows of `width` pixels. */
  predicate WholeRows(n: nat, width: nat)
    decreases n
  {
    n == 0 || (width > 0 && n >= width && WholeRows(n - width, width))
  }

  lemma {:induction false} ImageIsWholeRows(width: nat, height: nat)
    ensures WholeRows(width * height, width)
  {
    if height > 0 && width > 0 {
      ImageIsWholeRows(width, height - 1);
      MulSucc(width, height - 1);
    }
  }

  /** `p % width == width - 1`: pixel `p` ends a row. Written as repeated
      subtraction of `width`, which `LastColumnIsMod` shows is the same. */
  predicate LastColumn(p: nat, width: nat)
    requires width > 0
    decreases p
  {
    if p < width then p == width - 1 else LastColumn(p - width, width)
  }

  lemma {:induction false} LastColumnIsMod(p: nat, width: nat)
    requires width > 0
    ensures LastColumn(p, width) <==> p % width == width - 1
    decreases p
  {
    if p >= width {
      LastColumnIsMod(p - width, width);
      ModAdd(p - width, width);
    }
  }

  /** Within the row that begins at `start`, the row's last pixel is the
      one at `start + width - 1`. */
  lemma {:induction false} LastColumnOfRow(p: nat, start: nat, width: nat)
    requires WholeRows(start, width) && start <= p < start + width
    ensures LastColumn(p, width) <==> p - start == width - 1
    decreases start
  {
    if start > 0 {
      LastColumnOfRow(p - width, start - width, width);
    }
  }

  /** `np` holds the digits of the pixels from `groupStart` up to `p`. */
  ghost predicate Collected(px: seq<byte>, groupStart: nat, p: nat, np: nat)
  {
    groupStart <= p <= |px| && np == GroupValue(px[groupStart..p])
  }

  /** From a row boundary `start` on, the loop appends the packing of the
      remaining rows to what it has emitted. */
  lemma {:induction false} RowsFrom(px: seq<byte>, width: nat, start: nat, out: seq<int>)
    requires start <= |px| && WholeRows(start, width) && WholeRows(|px| - start, width)
    ensures Run(px, width, start, Packer(0, 8, out)).pix2 == out + Pack(px[start..], width)
    decreases |px| - start
  {
    if start == |px| {
      RunDone(px, width, Packer(0, 8, out));
      assert px[start..] == [];
    } else {
      var end := start + width;
      var bytes := PackRow(px[start..end]);
      var rest := Pack(px[end..], width);
      RowFrom(px, width, start, start, out);
      RowsFrom(px, width, end, out + bytes);
      PackFrom(px, width, start);
      AppendAssoc(out, bytes, rest);
    }
  }

  /** Whole rows from `start` on pack to the first one's bytes followed by
      the rest's. */
  lemma PackFrom(px: seq<byte>, width: nat, start: nat)
    requires start < |px| && WholeRows(|px| - start, width)
    ensures start + width <= |px|
    ensures Pack(px[start..], width) == PackRow(px[start..start + width]) + Pack(px[start + width..], width)
  {
    var rows := px[start..];
    assert rows[..width] == px[start..start + width] && rows[width..] == px[start + width..];
    if |rows| == width {
      assert rows[..width] == rows && rows[width..] == [];
    }
  }

  /** Within the row that begins at `start`, from a group boundary `gs` on,
      the loop appends the packing of the rest of the row and ends the row
      with nothing collected. */
  lemma {:induction false} RowFrom(px: seq<byte>, width: nat, start: nat, gs: nat, out: seq<int>)
    requires WholeRows(start, width) && width > 0 && start + width <= |px|
    requires start <= gs <= start + width
    ensures Run(px, width, gs, Packer(0, 8, out))
      == Run(px, width, start + width, Packer(0, 8, out + PackRow(px[gs..start + width])))
    decreases start + width - gs
  {
    var end := start + width;
    if gs == end {
      assert px[gs..end] == [];
      assert out + PackRow(px[gs..end]) == out;
    } else if end - gs <= 4 {
      LastGroup(px, width, start, gs, out);
    } else {
      var e := gs + 4;
      var b := PackGroup(px[gs..e]);
      GroupRun(px, width, start, gs, e, out);
      RowFrom(px, width, start, e, out + [b]);
      PackRowFrom(px, gs, end);
      AppendAssoc(out, [b], PackRow(px[e..end]));
    }
  }

  lemma AppendAssoc(a: seq<int>, b: seq<int>, c: seq<int>)
    ensures a + b + c == a + (b + c)
  {
  }

  /** More than four pixels pack to their first group's byte followed by
      the rest's bytes. */
  lemma PackRowFrom(px: seq<byte>, gs: nat, end: nat)
    requires gs + 4 < end <= |px|
    ensures PackRow(px[gs..end]) == [PackGroup(px[gs..gs + 4])] + PackRow(px[gs + 4..end])
  {
    assert px[gs..end][..4] == px[gs..gs + 4] && px[gs..end][4..] == px[gs + 4..end];
  }

  /** A row's last group, of at most four pixels, is emitted as one byte
      when the row ends. */
  lemma LastGroup(px: seq<byte>, width: nat, start: nat, gs: nat, out: seq<int>)
    requires WholeRows(start, width) && width > 0 && start + width <= |px|
    requires start <= gs < start + width <= gs + 4
    ensures Run(px, width, gs, Packer(0, 8, out))
      == Run(px, width, start + width, Packer(0, 8, out + PackRow(px[gs..start + width])))
  {
    var end := start + width;
    GroupRun(px, width, start, gs, end, out);
    assert PackRow(px[gs..end]) == [PackGroup(px[gs..end])];
  }

  /** The pixels from `gs` to `e` form one group, emitted as one byte after
      pixel `e - 1`. */
  lemma GroupRun(px: seq<byte>, width: nat, start: nat, gs: nat, e: nat, out: seq<int>)
    requires WholeRows(start, width) && width > 0 && start + width <= |px|
    requires start <= gs < e <= start + width && (e == gs + 4 || (e == start + width && e - gs <= 4))
    ensures Run(px, width, gs, Packer(0, 8, out)) == Run(px, width, e, Packer(0, 8, out + [PackGroup(px[gs..e])]))
  {
    assert px[gs..gs] == [];
    GroupFrom(px, width, start, gs, gs, e, out);
  }

  /** The pixels from `q` to `e` finish the group that began at `gs`: the
      loop emits that group's byte after pixel `e - 1` and not before.
      `e` is the group's natural end four pixels on, or the row's end. */
  lemma {:induction false} GroupFrom(px: seq<byte>, width: nat, start: nat, gs: nat, q: nat, e: nat, out: seq<int>)
    requires WholeRows(start, width) && width > 0 && start + width <= |px|
    requires start <= gs <= q < e <= start + width && (e == gs + 4 || (e == start + width && e - gs <= 4))
    ensures Run(px, width, q, Packer(GroupValue(px[gs..q]), 8 - 2 * (q - gs), out))
      == Run(px, width, e, Packer(0, 8, out + [PackGroup(px[gs..e])]))
    decreases e - q
  {
    var st := Packer(GroupValue(px[gs..q]), 8 - 2 * (q - gs), out);
    LastColumnOfRow(q, start, width);
    if q == e - 1 {
      RunEmit(px, width, q, st, gs);
    } else {
      RunCollect(px, width, q, st, gs);
      GroupFrom(px, width, start, gs, q + 1, e, out);
    }
  }

  lemma RunEmit(px: seq<byte>, width: nat, p: nat, st: Packer, groupStart: nat)
    requires p < |px| && width > 0 && Between(st)
    requires Collected(px, groupStart, p, st.np) && st.shiftCount == 8 - 2 * (p - groupStart)
    requires LastColumn(p, width) || st.shiftCount == 2
    ensures Run(px, width, p, st) == Run(px, width, p + 1, Packer(0, 8, st.pix2 + [PackGroup(px[groupStart..p + 1])]))
  {
    RunStep(px, width, p, st);
    EmitValue(px, width, p, st, groupStart);
  }

  lemma RunCollect(px: seq<byte>, width: nat, p: nat, st: Packer, groupStart: nat)
    requires p < |px| && width > 0 && Between(st)
    requires Collected(px, groupStart, p, st.np) && st.shiftCount == 8 - 2 * (p - groupStart)
    requires !LastColumn(p, width) && st.shiftCount != 2
    ensures Run(px, width, p, st) == Run(px, width, p + 1, Packer(GroupValue(px[groupStart..p + 1]), 8 - 2 * (p + 1 - groupStart), st.pix2))
  {
    RunStep(px, width, p, st);
    CollectValue(px, width, p, st, groupStart);
  }

  /** An iteration that does not emit adds the pixel's digit to the group. */
  lemma CollectValue(px: seq<byte>, width: nat, p: nat, st: Packer, groupStart: nat)
    requires p < |px| && width > 0 && Between(st)
    requires Collected(px, groupStart, p, st.np)
    requires !LastColumn(p, width) && st.shiftCount != 2
    ensures Step(st, px[p], p, width) == Packer(GroupValue(px[groupStart..p + 1]), st.shiftCount - 2, st.pix2)
  {
    SnocGroup(px, groupStart, p, st.np);
  }

  /** An iteration that emits appends the collected group's byte. */
  lemma EmitValue(px: seq<byte>, width: nat, p: nat, st: Packer, groupStart: nat)
    requires p < |px| && width > 0 && Between(st)
    requires Collected(px, groupStart, p, st.np) && st.shiftCount == 8 - 2 * (p - groupStart)
    requires LastColumn(p, width) || st.shiftCount == 2
    ensures Step(st, px[p], p, width) == Packer(0, 8, st.pix2 + [PackGroup(px[groupStart..p + 1])])
  {
    SnocGroup(px, groupStart, p, st.np);
    AlignGroup(4 * st.np + Sample(px[p]), px[groupStart..p + 1], st.shiftCount - 2);
  }

  /** Extending a group by the next pixel appends its digit. */
  lemma SnocGroup(px: seq<byte>, groupStart: nat, p: nat, np: nat)
    requires Collected(px, groupStart, p, np) && p < |px|
    ensures Collected(px, groupStart, p + 1, 4 * np + Sample(px[p]))
  {
    assert px[groupStart..p + 1][..p - groupStart] == px[groupStart..p];
  }

  /** Python's `x << k` on a non-negative integer, one bit at a time. */
  function ShiftLeft(x: nat, k: nat): nat
    decreases k
  {
    if k == 0 then x else ShiftLeft(2 * x, k - 1)
  }

  /** Python's `a | b` on non-negative integers, one bit at a time. */
  function BitOr(a: nat, b: nat): nat
    decreases a + b
  {
    if a == 0 then b
    else if b == 0 then a
    else 2 * BitOr(a / 2, b / 2) + (if a % 2 == 1 || b % 2 == 1 then 1 else 0)
  }

  function Pow2(k: nat): (r: nat)
    ensures r >= 1
  {
    if k == 0 then 1 else 2 * Pow2(k - 1)
  }

  /** Shifting left by `k` bits multiplies by `2^k`. */
  lemma {:induction false} ShiftLeftMultiplies(x: nat, k: nat)
    ensures ShiftLeft(x, k) == x * Pow2(k)
    decreases k
  {
    if k > 0 {
      ShiftLeftMultiplies(2 * x, k - 1);
      MulTwice(x, Pow2(k - 1));
    }
  }

  lemma MulTwice(x: nat, y: nat)
    ensures 2 * x * y == x * (2 * y)
  {
  }

  /** After `np <<= 2` the two low bits are clear, so `np |= s` with `s < 4`
      sets exactly them: `(np << 2) | s` appends the digit `s`. */
  lemma ShiftInSample(np: nat, s: nat)
    requires s < 4
    ensures BitOr(ShiftLeft(np, 2), s) == 4 * np + s
  {
    assert ShiftLeft(np, 2) == 4 * np by {
      ShiftLeftMultiplies(np, 2);
    }
    var a := 4 * np;
    if a != 0 && s != 0 {
      assert a / 2 == 2 * np && a % 2 == 0;
      var b := 2 * np;
      if s / 2 != 0 {
        assert b / 2 == np && b % 2 == 0;
        assert BitOr(np, 0) == np;
        assert BitOr(b, s / 2) == 2 * np + 1;
      }
    }
  }

  /** Shifting a group of `m` samples left by the `8 - 2m` free bits gives
      the left-aligned byte. */
  lemma AlignGroup(np: nat, group: seq<byte>, shiftCount: nat)
    requires 1 <= |group| <= 4 && shiftCount == 8 - 2 * |group|
    requires np == GroupValue(group)
    ensures Align(np, shiftCount) == PackGroup(group)
  {
    var g := group;
    assert g[..1][..0] == [];
    assert GroupValue(g[..1]) == Digit(g, 0);
    if |g| == 1 {
      assert g[..1] == g;
    } else {
      assert g[..2][..1] == g[..1];
      assert GroupValue(g[..2]) == 4 * Digit(g, 0) + Digit(g, 1);
      if |g| == 2 {
        assert g[..2] == g;
      } else {
        assert g[..3][..2] == g[..2];
        assert GroupValue(g[..3]) == 16 * Digit(g, 0) + 4 * Digit(g, 1) + Digit(g, 2);
        if |g| == 3 {
          assert g[..3] == g;
        } else {
          assert g[..3] == g[..|g| - 1];
        }
      }
    }
  }

  lemma ModAdd(x: nat, w: nat)
    requires w > 0
    ensures (x + w) % w == x % w
  {
    var a := (x + w) / w;
    var b := x / w;
    assert x + w == w * a + (x + w) % w;
    assert x == w * b + x % w;
    var k := a - b - 1;
    assert w * a == w * b + w * k + w;
    assert w * k == x % w - (x + w) % w;
    if k > 0 {
      MulAtLeast(k, w);
    } else if k < 0 {
      MulAtLeast(-k, w);
    }
  }

  lemma MulAtLeast(k: int, w: int)
    requires k >= 1 && w > 0
    ensures w * k >= w
  {
  }

  lemma MulSucc(width: nat, row: nat)
    ensures width * (row + 1) == width * row + width
  {
  }

  // Reading the bytes back, as a reader of the image does.

  /** The `j`-th 2-bit field of a byte, the most significant first. */
  function Field(b: byte, j: nat): (f: int)
    requires j < 4
    ensures 0 <= f < 4
  {
    if j == 0 then b / 64 else if j == 1 then b / 16 % 4 else if j == 2 then b / 4 % 4 else b % 4
  }

  /** The samples of a row of `n` pixels stored in `bytes`: pixel `c` is
      field `c % 4` of byte `c / 4`. */
  function UnpackRow(bytes: seq<byte>, n: nat): (r: seq<int>)
    requires (n + 3) / 4 <= |bytes|
    ensures |r| == n
  {
    seq(n, c requires 0 <= c < n => Field(bytes[c / 4], c % 4))
  }

  /** Bytes per row: a row of `width` pixels takes `ceil(width / 4)` bytes. */
  function RowBytes(width: nat): nat
  {
    (width + 3) / 4
  }

  /** The samples of an image stored row after row, `RowBytes(width)` bytes
      to a row; bytes that do not fill a row are not read. */
  function UnpackImage(data: seq<byte>, width: nat): seq<int>
    decreases |data|
  {
    var b := RowBytes(width);
    if b == 0 || |data| < b then [] else UnpackRow(data[..b], width) + UnpackImage(data[b..], width)
  }

  /** `pval / 64` for every pixel. */
  function Samples(px: seq<byte>): (r: seq<int>)
    ensures |r| == |px|
  {
    seq(|px|, i requires 0 <= i < |px| => Sample(px[i]))
  }

  /** The fields of a packed group are its samples, and zero past its end. */
  lemma FieldsOfGroup(g: seq<byte>)
    requires 1 <= |g| <= 4
    ensures forall j :: 0 <= j < 4 ==> Field(PackGroup(g), j) == Digit(g, j)
  {
    var a, b, c, d := Digit(g, 0), Digit(g, 1), Digit(g, 2), Digit(g, 3);
    var v := PackGroup(g);
    assert v == 64 * a + 16 * b + 4 * c + d;
    assert v / 64 == a;
    assert v / 16 == 4 * a + b;
    assert v / 4 == 16 * a + 4 * b + c;
  }

  /** A row packs to `ceil(|row| / 4)` bytes. */
  lemma {:induction false} PackRowLength(row: seq<byte>)
    ensures |PackRow(row)| == RowBytes(|row|)
    decreases |row|
  {
    if |row| > 4 {
      PackRowLength(row[4..]);
    }
  }

  /** Every sample of a row reads back from its packed bytes. */
  lemma {:induction false} PackRowRoundTrip(row: seq<byte>)
    ensures RowBytes(|row|) <= |PackRow(row)|
    ensures UnpackRow(PackRow(row), |row|) == Samples(row)
    decreases |row|
  {
    PackRowLength(row);
    if row == [] {
    } else if |row| <= 4 {
      FieldsOfGroup(row);
    } else {
      var head, tail := row[..4], row[4..];
      FieldsOfGroup(head);
      PackRowRoundTrip(tail);
      var bytes := PackRow(row);
      forall c | 0 <= c < |row|
        ensures Field(bytes[c / 4], c % 4) == Sample(row[c])
      {
        RowField(row, c);
      }
    }
  }

  /** One sample of a row longer than a group, given the round trip of the
      row's tail. */
  lemma RowField(row: seq<byte>, c: nat)
    requires 4 < |row| && c < |row|
    requires RowBytes(|row| - 4) <= |PackRow(row[4..])|
    requires UnpackRow(PackRow(row[4..]), |row| - 4) == Samples(row[4..])
    ensures c / 4 < |PackRow(row)|
    ensures Field(PackRow(row)[c / 4], c % 4) == Sample(row[c])
  {
    var head, tail := row[..4], row[4..];
    assert PackRow(row) == [PackGroup(head)] + PackRow(tail);
    if c >= 4 {
      ShiftGroup(c);
      TailField(tail, c - 4);
      assert tail[c - 4] == row[c];
    } else {
      HeadField(head, c);
      assert head[c] == row[c];
    }
  }

  lemma TailField(tail: seq<byte>, k: nat)
    requires k < |tail| && RowBytes(|tail|) <= |PackRow(tail)|
    requires UnpackRow(PackRow(tail), |tail|) == Samples(tail)
    ensures k / 4 < |PackRow(tail)|
    ensures Field(PackRow(tail)[k / 4], k % 4) == Sample(tail[k])
  {
    assert UnpackRow(PackRow(tail), |tail|)[k] == Samples(tail)[k];
  }

  lemma HeadField(head: seq<byte>, c: nat)
    requires |head| == 4 && c < 4
    ensures c / 4 == 0 && c % 4 == c
    ensures Field(PackGroup(head), c) == Sample(head[c])
  {
    FieldsOfGroup(head);
  }

  lemma ShiftGroup(c: nat)
    requires c >= 4
    ensures c / 4 == (c - 4) / 4 + 1 && c % 4 == (c - 4) % 4
  {
  }

  /** The fields of a row's last byte past the row's end are zero. */
  lemma {:induction false} PaddingIsZero(row: seq<byte>)
    ensures forall j :: |row| <= j < 4 * |PackRow(row)| ==> Field(PackRow(row)[j / 4], j % 4) == 0
    decreases |row|
  {
    if 0 < |row| <= 4 {
      FieldsOfGroup(row);
    } else if |row| > 4 {
      PaddingIsZero(row[4..]);
      var bytes := PackRow(row);
      assert bytes == [PackGroup(row[..4])] + PackRow(row[4..]);
      forall j | |row| <= j < 4 * |bytes|
        ensures Field(bytes[j / 4], j % 4) == 0
      {
        assert j / 4 == (j - 4) / 4 + 1 && j % 4 == (j - 4) % 4;
      }
    }
  }

  /** The packed image holds `height` rows of `ceil(width / 4)` bytes. */
  lemma PackLength(px: seq<byte>, width: nat, height: nat)
    requires |px| == width * height
    ensures |Pack(px, width)| == height * RowBytes(width)
  {
    ImageIsWholeRows(width, height);
    RowsLength(px, width);
    SizeOfRows(width, height);
  }

  /** `RowBytes(width)` bytes for each whole row in `n` pixels. */
  function PackedSize(n: nat, width: nat): nat
    decreases n
  {
    if width == 0 || n < width then 0 else RowBytes(width) + PackedSize(n - width, width)
  }

  lemma {:induction false} RowsLength(px: seq<byte>, width: nat)
    requires WholeRows(|px|, width)
    ensures |Pack(px, width)| == PackedSize(|px|, width)
    decreases |px|
  {
    if px != [] {
      PackFrom(px, width, 0);
      assert px[0..] == px && px[0 + width..] == px[width..];
      PackRowLength(px[0..width]);
      RowsLength(px[width..], width);
    }
  }

  lemma {:induction false} SizeOfRows(width: nat, height: nat)
    ensures PackedSize(width * height, width) == height * RowBytes(width)
  {
    if height > 0 && width > 0 {
      SizeOfRows(width, height - 1);
      MulSucc(width, height - 1);
      MulSucc(RowBytes(width), height - 1);
    }
  }

  /** Reading the packed image back row by row recovers every pixel's
      sample. */
  lemma PackRoundTrip(px: seq<byte>, width: nat, height: nat)
    requires |px| == width * height
    ensures UnpackImage(Pack(px, width), width) == Samples(px)
  {
    ImageIsWholeRows(width, height);
    RowsRoundTrip(px, width);
  }

  lemma {:induction false} RowsRoundTrip(px: seq<byte>, width: nat)
    requires WholeRows(|px|, width)
    ensures UnpackImage(Pack(px, width), width) == Samples(px)
    decreases |px|
  {
    if px != [] {
      var row, rest := px[..width], px[width..];
      PackRowLength(row);
      PackRowRoundTrip(row);
      PackFrom(px, width, 0);
      assert px[0..] == px && px[0..width] == row && px[0 + width..] == rest;
      RowsRoundTrip(rest, width);
      UnpackImageCons(PackRow(row), Pack(rest, width), width);
      assert px == row + rest;
      SamplesAppend(row, rest);
    }
  }

  /** A leading whole row of bytes unpacks on its own. */
  lemma UnpackImageCons(a: seq<byte>, rest: seq<byte>, width: nat)
    requires 0 < |a| == RowBytes(width)
    ensures UnpackImage(a + rest, width) == UnpackRow(a, width) + UnpackImage(rest, width)
  {
    var data := a + rest;
    assert data[..|a|] == a && data[|a|..] == rest;
  }

  lemma SamplesAppend(x: seq<byte>, y: seq<byte>)
    ensures Samples(x + y) == Samples(x) + Samples(y)
  {
  }
}
