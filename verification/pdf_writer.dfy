/** `PDFStream` and `write_gray_pdf`: the file is a header, a catalog, a
    page tree, three objects per page (page, image, content stream), an
    information dictionary, the cross-reference table and the trailer
    (sections 7.5.2 to 7.5.5 of ISO 32000-1). The file is modelled as the
    text written so far; the page images arrive already compressed. */
module PdfWriter {
  import opened Decimal

  /** `PDFStream`: what has been written to the file, the offsets recorded
      by `start_object`, and the running offset `ofs`. */
  datatype PdfStream = PdfStream(written: string, objects: seq<nat>, ofs: nat)

  /** `PDFStream(filename)` on a file opened for writing, hence empty. */
  const Opened := PdfStream([], [], 0)

  /** `ofs` counts the characters written. */
  predicate Tracks(f: PdfStream)
  {
    f.ofs == |f.written|
  }

  /** `write`: appends `s` and advances `ofs` by its length. */
  function Write(f: PdfStream, s: string): (r: PdfStream)
    ensures r.written == f.written + s && r.objects == f.objects
    ensures Tracks(f) ==> Tracks(r)
  {
    PdfStream(f.written + s, f.objects, f.ofs + |s|)
  }

  /** `start_object`: records the current offset and returns the 1-based
      number of the object that starts there. */
  function StartObject(f: PdfStream): (r: (PdfStream, nat))
    ensures r.0.written == f.written && r.0.ofs == f.ofs
    ensures r.0.objects == f.objects + [f.ofs] && r.1 == |r.0.objects|
  {
    var objects := f.objects + [f.ofs];
    (f.(objects := objects), |objects|)
  }

  /** The line `"%u 0 obj\n"` that begins object `n`. */
  function ObjHeader(n: nat): string
  {
    Show(n) + " 0 obj\n"
  }

  /** Object `n`'s header is written at offset `at`. */
  ghost predicate HeaderAt(text: string, at: nat, n: nat)
  {
    at + |ObjHeader(n)| <= |text| && text[at..at + |ObjHeader(n)|] == ObjHeader(n)
  }

  /** Every recorded offset points at its own object's header: the `k`-th
      offset at `"k+1 0 obj"`. */
  ghost predicate HeadersAt(text: string, objects: seq<nat>)
  {
    forall k :: 0 <= k < |objects| ==> HeaderAt(text, objects[k], k + 1)
  }

  ghost predicate Valid(f: PdfStream)
  {
    Tracks(f) && HeadersAt(f.written, f.objects)
  }

  lemma HeaderAtExtends(text: string, more: string, at: nat, n: nat)
    requires HeaderAt(text, at, n)
    ensures HeaderAt(text + more, at, n)
  {
    assert (text + more)[at..at + |ObjHeader(n)|] == text[at..at + |ObjHeader(n)|];
  }

  /** Writing never disturbs what is already in the file. */
  lemma WriteKeepsValid(f: PdfStream, s: string)
    requires Valid(f)
    ensures Valid(Write(f, s))
  {
    forall k | 0 <= k < |f.objects|
      ensures HeaderAt(f.written + s, f.objects[k], k + 1)
    {
      HeaderAtExtends(f.written, s, f.objects[k], k + 1);
    }
  }

  /** `n = f.start_object(); f.write("%u 0 obj\n" % n)`, the way every
      object of the file begins. */
  function BeginObject(f: PdfStream): (r: (PdfStream, nat))
    ensures r.1 == |f.objects| + 1 && r.0.objects == f.objects + [f.ofs]
    ensures Tracks(f) ==> Tracks(r.0)
  {
    var (g, n) := StartObject(f);
    (Write(g, ObjHeader(n)), n)
  }

  /** The offset `start_object` records is where the object's header lands. */
  lemma BeginObjectKeepsValid(f: PdfStream)
    requires Valid(f)
    ensures Valid(BeginObject(f).0)
  {
    var (r, n) := BeginObject(f);
    var text := f.written + ObjHeader(n);
    assert r.written == text;
    forall k | 0 <= k < |r.objects|
      ensures HeaderAt(text, r.objects[k], k + 1)
    {
      if k < |f.objects| {
        HeaderAtExtends(f.written, ObjHeader(n), f.objects[k], k + 1);
      } else {
        assert text[|f.written|..|f.written| + |ObjHeader(n)|] == ObjHeader(n);
      }
    }
  }

  /** `f.write("\n")` and a new object: how every object after the catalog
      is separated from the one before. */
  function NextObject(f: PdfStream): (r: (PdfStream, nat))
    ensures r.1 == |f.objects| + 1 && |r.0.objects| == r.1
    ensures Tracks(f) ==> Tracks(r.0)
  {
    BeginObject(Write(f, "\n"))
  }

  /** Writing a separator, an object header and the object's text keeps
      every recorded offset on its header. */
  lemma ObjectKeepsValid(f: PdfStream, body: string)
    requires Valid(f)
    ensures Valid(Write(BeginObject(f).0, body))
    ensures Valid(Write(NextObject(f).0, body))
  {
    BeginObjectKeepsValid(f);
    WriteKeepsValid(BeginObject(f).0, body);
    WriteKeepsValid(f, "\n");
    BeginObjectKeepsValid(Write(f, "\n"));
    WriteKeepsValid(NextObject(f).0, body);
  }

  // The objects of the file, lines 35-149.

  /** The text of consecutive `write` calls. */
  function Concat(parts: seq<string>): string
  {
    if parts == [] then [] else parts[0] + Concat(parts[1..])
  }

  /** The catalog (lines 36-42), which names the page tree as the next
      object. */
  function CatalogBody(n: nat): string
  {
    Concat(["<<\n", "/Type /Catalog\n", "/Pages " + Show(n + 1) + " 0 R\n", ">>\n", "endobj\n"])
  }

  /** The object numbers the `/Kids` loop writes (line 52). */
  function Kids(pagesNumber: nat, n: nat): (r: seq<nat>)
    ensures |r| == n
  {
    seq(n, i requires 0 <= i < n => pagesNumber + 1 + i * 3)
  }

  /** `" %u 0 R"` for each number. */
  function RefList(ns: seq<nat>): string
  {
    if ns == [] then "" else RefList(ns[..|ns| - 1]) + " " + Show(ns[|ns| - 1]) + " 0 R"
  }

  /** The page tree (lines 46-56). */
  function PagesBody(pagesNumber: nat, n: nat): string
  {
    Concat(["<<\n", "/Type /Pages\n", "/Kids [", RefList(Kids(pagesNumber, n)), " ]\n", "/Count " + Show(n) + "\n", ">>\n", "endobj\n"])
  }

  /** What the writer uses of one page: the image size, the `%.2f` and
      `%f` renderings of the page size in points, and the JPEG and zlib
      encodings of the image. */
  datatype PageInput = PageInput(
    width: nat, height: nat,
    boxWidth: string, boxHeight: string,
    cmWidth: string, cmHeight: string,
    jpeg: string, flate: string)

  /** Lines 87-92: the JPEG encoding is used only when it is strictly
      shorter than the zlib one. */
  function ChooseEncoding(jpeg: string, flate: string): (r: (string, string))
    ensures r == ("DCTDecode", jpeg) || r == ("FlateDecode", flate)
    ensures |r.1| <= |jpeg| && |r.1| <= |flate|
    ensures r.0 == "DCTDecode" <==> |jpeg| < |flate|
  {
    if |jpeg| < |flate| then ("DCTDecode", jpeg) else ("FlateDecode", flate)
  }

  /** The page object (lines 96-105); it names the image and the content
      stream as the two objects after it. */
  function PageBody(pagesNumber: nat, i: nat, number: nat, page: PageInput): string
  {
    Concat([
      "<<\n", "/Type /Page\n",
      "/Parent " + Show(pagesNumber) + " 0 R\n",
      "/Resources << /XObject << /Im" + Show(i) + " " + Show(number + 1) + " 0 R >> >>\n",
      "/MediaBox [ 0 0 " + page.boxWidth + " " + page.boxHeight + " ]\n",
      "/Contents " + Show(number + 2) + " 0 R\n",
      ">>\n", "endobj\n"])
  }

  /** The image object (lines 109-126): 2 bits per sample, device gray,
      the shorter encoding as its stream. `filter` is never empty, so the
      `/Filter` line of line 120 is always written. */
  function ImageBody(page: PageInput): string
  {
    var (filter, data) := ChooseEncoding(page.jpeg, page.flate);
    Concat([
      "<<\n", "/Type /XObject\n", "/Subtype /Image\n",
      "/Width " + Show(page.width) + "\n", "/Height " + Show(page.height) + "\n",
      "/ColorSpace /DeviceGray\n", "/BitsPerComponent 2\n",
      "/Length " + Show(|data|) + "\n", "/Filter /" + filter + "\n",
      ">>\n", "stream\n", data, "\n", "endstream\n", "endobj\n"])
  }

  /** The content stream (line 129): scale the unit square to the page and
      paint image `i` on it. */
  function Command(i: nat, page: PageInput): string
  {
    "q\n" + page.cmWidth + " 0 0 " + page.cmHeight + " 0 0 cm\n/Im" + Show(i) + " Do\nQ"
  }

  /** The content stream object (lines 133-140). */
  function ContentBody(command: string): string
  {
    Concat(["<<\n", "/Length " + Show(|command|) + "\n", ">>\n", "stream\n", command, "\n", "endstream\n", "endobj\n"])
  }

  /** The information dictionary (lines 144-149). */
  function InfoBody(): string
  {
    Concat(["<<\n", "/Creator (Paperwork)\n", ">>\n", "endobj\n"])
  }

  /** The numbers of one page's three objects. */
  datatype PageObjects = PageObjects(page: nat, image: nat, content: nat)

  /** One iteration of the page loop (lines 95-140): the page, its image and
      its content stream, each preceded by an empty line. The page object
      refers to its image as `number+1` and to its content as `number+2`;
      these are the numbers the next two objects receive. */
  function WritePage(f: PdfStream, pagesNumber: nat, i: nat, page: PageInput): (r: (PdfStream, PageObjects))
    ensures r.1.page == |f.objects| + 1
    ensures r.1.image == r.1.page + 1 && r.1.content == r.1.page + 2
    ensures |r.0.objects| == |f.objects| + 3
    ensures Tracks(f) ==> Tracks(r.0)
  {
    var (f1, number) := NextObject(f);
    var f2 := Write(f1, PageBody(pagesNumber, i, number, page));
    var (f3, image) := NextObject(f2);
    var f4 := Write(f3, ImageBody(page));
    var (f5, content) := NextObject(f4);
    var f6 := Write(f5, ContentBody(Command(i, page)));
    (f6, PageObjects(number, image, content))
  }

  lemma WritePageKeepsValid(f: PdfStream, pagesNumber: nat, i: nat, page: PageInput)
    requires Valid(f)
    ensures Valid(WritePage(f, pagesNumber, i, page).0)
  {
    var (f1, number) := NextObject(f);
    ObjectKeepsValid(f, PageBody(pagesNumber, i, number, page));
    var f2 := Write(f1, PageBody(pagesNumber, i, number, page));
    ObjectKeepsValid(f2, ImageBody(page));
    var (f3, image) := NextObject(f2);
    var f4 := Write(f3, ImageBody(page));
    ObjectKeepsValid(f4, ContentBody(Command(i, page)));
  }

  /** The loop over `enumerate(pages)` from page `i` on. */
  function WritePages(f: PdfStream, pagesNumber: nat, pages: seq<PageInput>, i: nat): (r: (PdfStream, seq<PageObjects>))
    requires i <= |pages|
    ensures |r.1| == |pages| - i
    ensures |r.0.objects| == |f.objects| + 3 * (|pages| - i)
    decreases |pages| - i
  {
    if i == |pages| then (f, [])
    else
      var (g, objs) := WritePage(f, pagesNumber, i, pages[i]);
      var (h, rest) := WritePages(g, pagesNumber, pages, i + 1);
      (h, [objs] + rest)
  }

  /** Page `j`'s objects are numbered `base + 3j + 1` to `base + 3j + 3`. */
  ghost predicate NumberedFrom(objs: seq<PageObjects>, base: nat)
  {
    forall j :: 0 <= j < |objs| ==> objs[j] == PageObjects(base + 3 * j + 1, base + 3 * j + 2, base + 3 * j + 3)
  }

  /** The pages' objects are numbered consecutively, three per page, after
      those already in the file. */
  lemma {:induction false} WritePagesNumbers(f: PdfStream, pagesNumber: nat, pages: seq<PageInput>, i: nat)
    requires i <= |pages|
    ensures NumberedFrom(WritePages(f, pagesNumber, pages, i).1, |f.objects|)
    decreases |pages| - i
  {
    if i < |pages| {
      var step := WritePage(f, pagesNumber, i, pages[i]);
      var tail := WritePages(step.0, pagesNumber, pages, i + 1);
      assert WritePages(f, pagesNumber, pages, i).1 == [step.1] + tail.1;
      WritePagesNumbers(step.0, pagesNumber, pages, i + 1);
      NumberedCons(step.1, tail.1, |f.objects|);
    }
  }

  lemma NumberedCons(objs: PageObjects, rest: seq<PageObjects>, base: nat)
    requires objs == PageObjects(base + 1, base + 2, base + 3)
    requires NumberedFrom(rest, base + 3)
    ensures NumberedFrom([objs] + rest, base)
  {
    forall j | 1 <= j < |rest| + 1
      ensures ([objs] + rest)[j] == PageObjects(base + 3 * j + 1, base + 3 * j + 2, base + 3 * j + 3)
    {
      assert ([objs] + rest)[j] == rest[j - 1];
    }
  }

  lemma {:induction false} WritePagesKeepsValid(f: PdfStream, pagesNumber: nat, pages: seq<PageInput>, i: nat)
    requires i <= |pages| && Valid(f)
    ensures Valid(WritePages(f, pagesNumber, pages, i).0)
    decreases |pages| - i
  {
    if i < |pages| {
      WritePageKeepsValid(f, pagesNumber, i, pages[i]);
      WritePagesKeepsValid(WritePage(f, pagesNumber, i, pages[i]).0, pagesNumber, pages, i + 1);
    }
  }

  /** The object numbers of a written file. */
  datatype Layout = Layout(catalog: nat, pageTree: nat, kids: seq<nat>, pageObjects: seq<PageObjects>, info: nat)

  /** The binary comment of line 33. */
  const BinaryComment: string := "%\U{e2}\U{e3}\U{cf}\U{d3}\n"

  /** Lines 27-149: the header and every object. The catalog is object 1
      and names the page tree, object 2; the information dictionary is the
      last object. */
  function WriteObjects(pages: seq<PageInput>): (r: (PdfStream, Layout))
    ensures r.1.catalog == 1 && r.1.pageTree == r.1.catalog + 1
    ensures |r.1.kids| == |pages| == |r.1.pageObjects|
    ensures r.1.info == |r.0.objects| == 3 * |pages| + 3
  {
    var f0 := Write(Write(Opened, "%PDF-1.3\n"), BinaryComment);
    var (f1, catalog) := BeginObject(f0);
    var f2 := Write(f1, CatalogBody(catalog));
    var (f3, pagesNumber) := NextObject(f2);
    var f4 := Write(f3, PagesBody(pagesNumber, |pages|));
    var (f5, pageObjects) := WritePages(f4, pagesNumber, pages, 0);
    var (f6, info) := NextObject(f5);
    var f7 := Write(f6, InfoBody());
    (f7, Layout(catalog, pagesNumber, Kids(pagesNumber, |pages|), pageObjects, info))
  }

  /** Page `i` is objects `3i+3` to `3i+5`, and the `/Kids` the page tree
      lists are exactly the page objects. */
  lemma WriteObjectsNumbers(pages: seq<PageInput>)
    ensures var layout := WriteObjects(pages).1;
      && NumberedFrom(layout.pageObjects, 2)
      && forall i :: 0 <= i < |pages| ==> layout.kids[i] == layout.pageObjects[i].page
  {
    var f0 := Write(Write(Opened, "%PDF-1.3\n"), BinaryComment);
    var f2 := Write(BeginObject(f0).0, CatalogBody(1));
    var f4 := Write(NextObject(f2).0, PagesBody(2, |pages|));
    WritePagesNumbers(f4, 2, pages, 0);
  }

  /** Every offset `start_object` recorded is that of its object's header. */
  lemma WriteObjectsValid(pages: seq<PageInput>)
    ensures Valid(WriteObjects(pages).0)
  {
    var f0 := Write(Write(Opened, "%PDF-1.3\n"), BinaryComment);
    ObjectKeepsValid(f0, CatalogBody(1));
    var f2 := Write(BeginObject(f0).0, CatalogBody(1));
    ObjectKeepsValid(f2, PagesBody(2, |pages|));
    var f4 := Write(NextObject(f2).0, PagesBody(2, |pages|));
    WritePagesKeepsValid(f4, 2, pages, 0);
    ObjectKeepsValid(WritePages(f4, 2, pages, 0).0, InfoBody());
  }

  // The cross-reference table and the trailer, lines 151-172.

  /** One in-use entry: a 10-digit offset, generation 0 (line 159). */
  function Entry(offset: nat): string
  {
    ZeroPad(offset, 10) + " 00000 n \n"
  }

  /** The entries the loop of lines 158-159 writes, one per object, in
      object order. */
  function EntryLines(objects: seq<nat>): (r: seq<string>)
    ensures |r| == |objects|
  {
    seq(|objects|, k requires 0 <= k < |objects| => Entry(objects[k]))
  }

  function Entries(objects: seq<nat>): string
  {
    Concat(EntryLines(objects))
  }

  /** The table's first lines: one subsection starting at object 0, and the
      free entry for object 0 (lines 154-156). */
  function XrefHead(count: nat): string
  {
    Concat(["xref\n", "0 " + Show(count) + "\n", "0000000000 65535 f \n"])
  }

  /** The trailer's lines (lines 162-172). */
  function TrailerLines(size: nat, info: nat, root: nat, pdfid: string, xrefOffset: nat): (r: seq<string>)
    ensures |r| == 11
  {
    [ "\n", "trailer\n", "<<\n",
      "/Size " + Show(size) + "\n", "/Info " + Show(info) + " 0 R\n", "/Root " + Show(root) + " 0 R\n",
      "/ID [<" + pdfid + "> <" + pdfid + ">]\n",
      ">>\n", "startxref\n", Show(xrefOffset) + "\n", "%%EOF\n"]
  }

  function Trailer(size: nat, info: nat, root: nat, pdfid: string, xrefOffset: nat): string
  {
    Concat(TrailerLines(size, info, root, pdfid, xrefOffset))
  }

  /** A written file: its text, object numbers, the offsets of its objects
      and where its cross-reference table starts. */
  datatype Pdf = Pdf(text: string, layout: Layout, objects: seq<nat>, xrefOffset: nat)

  /** Lines 151-172: an empty line, the table and the trailer after the
      objects. */
  function Finish(f: PdfStream, layout: Layout, pdfid: string): (r: Pdf)
    ensures r.objects == f.objects && r.layout == layout
  {
    var f1 := Write(f, "\n");
    var xrefOffset := f1.ofs;
    var f2 := Write(Write(f1, XrefHead(|f1.objects| + 1)), Entries(f1.objects));
    var f3 := Write(f2, Trailer(|f2.objects| + 1, layout.info, layout.catalog, pdfid, xrefOffset));
    Pdf(f3.written, layout, f3.objects, xrefOffset)
  }

  /** `write_gray_pdf`, with the random file identifier as a parameter. */
  function WriteGrayPdf(pages: seq<PageInput>, pdfid: string): (r: Pdf)
    ensures |r.objects| == 3 * |pages| + 3
  {
    var (f, layout) := WriteObjects(pages);
    Finish(f, layout, pdfid)
  }

  // Reading the table back.

  /** An entry is 20 characters when its offset fits in 10 digits, as
      section 7.5.4 of ISO 32000-1 requires, and its first 10 read back as
      the offset. */
  lemma EntryReadsBack(offset: nat)
    requires offset < Pow10(10)
    ensures |Entry(offset)| == 20
    ensures AllDigits(Entry(offset)[..10]) && Read(Entry(offset)[..10]) == offset
  {
    ZeroPadFits(offset, 10);
    ZeroPadRoundTrip(offset, 10);
    assert Entry(offset)[..10] == ZeroPad(offset, 10);
  }

  /** Lines of 20 characters lie back to back: line `k` starts at `20k`. */
  lemma {:induction false} ConcatBlocks(parts: seq<string>, k: nat)
    requires forall j :: 0 <= j < |parts| ==> |parts[j]| == 20
    requires k < |parts|
    ensures 20 * k + 20 <= |Concat(parts)|
    ensures Concat(parts)[20 * k..20 * k + 20] == parts[k]
  {
    var rest := parts[1..];
    assert Concat(parts) == parts[0] + Concat(rest);
    if k == 0 {
      SliceOfLeft(parts[0], Concat(rest), 0, 20);
      assert parts[0][0..20] == parts[0];
    } else {
      assert forall j :: 0 <= j < |rest| ==> rest[j] == parts[j + 1];
      ConcatBlocks(rest, k - 1);
      SliceOfRight(parts[0], Concat(rest), 20 * (k - 1), 20 * k);
    }
  }

  /** The first ten characters of line `k` of a run of 20-character lines
      placed after `front`. */
  lemma ReadBlock(front: string, parts: seq<string>, tail: string, k: nat)
    requires forall j :: 0 <= j < |parts| ==> |parts[j]| == 20
    requires k < |parts|
    ensures |front| + 20 * k + 10 <= |front + Concat(parts) + tail|
    ensures (front + Concat(parts) + tail)[|front| + 20 * k..|front| + 20 * k + 10] == parts[k][..10]
  {
    ConcatBlocks(parts, k);
    var blocks := Concat(parts);
    SliceOfRight(front, blocks, 20 * k, 20 * k + 10);
    SliceOfLeft(front + blocks, tail, |front| + 20 * k, |front| + 20 * k + 10);
    assert blocks[20 * k..20 * k + 10] == parts[k][..10];
  }

  /** Where the entry of object `k+1` begins, in a table at `xref` of
      `count` objects. */
  ghost function EntryStart(xref: nat, count: nat, k: nat): nat
  {
    xref + |XrefHead(count + 1)| + 20 * k
  }

  /** Entry `k` holds, in its 10 digits, the offset at which the header of
      object `k+1` stands. */
  ghost predicate EntryResolves(text: string, xref: nat, objects: seq<nat>, k: nat)
    requires k < |objects|
  {
    var e := EntryStart(xref, |objects|, k);
    && e + 10 <= |text|
    && AllDigits(text[e..e + 10])
    && Read(text[e..e + 10]) == objects[k]
    && HeaderAt(text, objects[k], k + 1)
  }

  /** A table starts at `xref` and resolves every object. */
  ghost predicate TableResolves(text: string, xref: nat, objects: seq<nat>)
  {
    && xref + 5 <= |text|
    && text[xref..xref + 5] == "xref\n"
    && forall k :: 0 <= k < |objects| ==> EntryResolves(text, xref, objects, k)
  }

  lemma SliceOfLeft(a: string, b: string, i: nat, j: nat)
    requires i <= j <= |a|
    ensures (a + b)[i..j] == a[i..j]
  {
  }

  lemma SliceOfRight(a: string, b: string, i: nat, j: nat)
    requires i <= j <= |b|
    ensures (a + b)[|a| + i..|a| + j] == b[i..j]
  {
  }

  /** Every offset fits the table's 10 digits. */
  ghost predicate OffsetsFit(objects: seq<nat>)
  {
    forall k :: 0 <= k < |objects| ==> objects[k] < Pow10(10)
  }

  lemma HeadersFit(written: string, objects: seq<nat>)
    requires HeadersAt(written, objects) && |written| < Pow10(10)
    ensures OffsetsFit(objects)
  {
    forall k | 0 <= k < |objects|
      ensures objects[k] < Pow10(10)
    {
      assert HeaderAt(written, objects[k], k + 1);
    }
  }

  /** After the objects, an empty line, the table and any trailer: the
      table resolves every object, provided the offsets fit 10 digits. */
  lemma TableAfter(written: string, objects: seq<nat>, tail: string)
    requires HeadersAt(written, objects) && |written| < Pow10(10)
    ensures TableResolves(written + "\n" + XrefHead(|objects| + 1) + Entries(objects) + tail, |written| + 1, objects)
  {
    var head := XrefHead(|objects| + 1);
    var front := written + "\n";
    var text := front + head + Entries(objects) + tail;
    assert head[..5] == "xref\n";
    SliceOfRight(front, head, 0, 5);
    SliceOfLeft(front + head, Entries(objects), |front|, |front| + 5);
    SliceOfLeft(front + head + Entries(objects), tail, |front|, |front| + 5);
    HeadersFit(written, objects);
    var xref := |written| + 1;
    forall k | 0 <= k < |objects|
      ensures EntryResolves(text, xref, objects, k)
    {
      EntryAfter(written, objects, tail, k);
    }
  }

  lemma EntryAfter(written: string, objects: seq<nat>, tail: string, k: nat)
    requires HeadersAt(written, objects)
    requires OffsetsFit(objects)
    requires k < |objects|
    ensures EntryResolves(written + "\n" + XrefHead(|objects| + 1) + Entries(objects) + tail, |written| + 1, objects, k)
  {
    var head := XrefHead(|objects| + 1);
    var lines := EntryLines(objects);
    EntryLinesLength(objects);
    EntryReadsBack(objects[k]);
    ReadBlock(written + "\n" + head, lines, tail, k);
    assert HeaderAt(written, objects[k], k + 1);
    HeaderAtExtends(written, "\n", objects[k], k + 1);
    HeaderAtExtends(written + "\n", head, objects[k], k + 1);
    HeaderAtExtends(written + "\n" + head, Entries(objects), objects[k], k + 1);
    HeaderAtExtends(written + "\n" + head + Entries(objects), tail, objects[k], k + 1);
  }

  lemma EntryLinesLength(objects: seq<nat>)
    requires OffsetsFit(objects)
    ensures forall j :: 0 <= j < |objects| ==> |EntryLines(objects)[j]| == 20
  {
    forall j | 0 <= j < |objects|
      ensures |EntryLines(objects)[j]| == 20
    {
      EntryReadsBack(objects[j]);
    }
  }

  /** The text a file is made of: the objects, an empty line, the table and
      the trailer. */
  lemma FinishParts(f: PdfStream, layout: Layout, pdfid: string)
    requires Tracks(f)
    ensures var p := Finish(f, layout, pdfid);
      && p.xrefOffset == |f.written| + 1
      && p.text == f.written + "\n" + XrefHead(|f.objects| + 1) + Entries(f.objects)
                   + Trailer(|f.objects| + 1, layout.info, layout.catalog, pdfid, p.xrefOffset)
  {
  }

  lemma FinishTable(f: PdfStream, layout: Layout, pdfid: string)
    requires Valid(f) && |f.written| < Pow10(10)
    ensures var p := Finish(f, layout, pdfid);
      TableResolves(p.text, p.xrefOffset, p.objects)
  {
    FinishParts(f, layout, pdfid);
    var p := Finish(f, layout, pdfid);
    TableAfter(f.written, f.objects, Trailer(|f.objects| + 1, layout.info, layout.catalog, pdfid, p.xrefOffset));
  }

  /** The cross-reference table starts where `startxref` says, and entry
      `k` gives the offset of object `k+1`'s header, for files whose
      offsets fit the table's 10 digits. */
  lemma XrefResolves(pages: seq<PageInput>, pdfid: string)
    requires WriteGrayPdf(pages, pdfid).xrefOffset < Pow10(10)
    ensures var p := WriteGrayPdf(pages, pdfid);
      TableResolves(p.text, p.xrefOffset, p.objects)
  {
    var (f, layout) := WriteObjects(pages);
    WriteObjectsValid(pages);
    FinishParts(f, layout, pdfid);
    FinishTable(f, layout, pdfid);
  }

  // The table's size and the trailer's `/Size`.

  lemma {:induction false} ConcatSplit(parts: seq<string>, k: nat)
    requires k <= |parts|
    ensures Concat(parts) == Concat(parts[..k]) + Concat(parts[k..])
    decreases k
  {
    if k == 0 {
      assert parts[..0] == [] && parts[0..] == parts;
    } else {
      var rest := parts[1..];
      ConcatSplit(rest, k - 1);
      assert rest[..k - 1] == parts[1..k] && rest[k - 1..] == parts[k..];
      assert parts[..k][0] == parts[0] && parts[..k][1..] == parts[1..k];
    }
  }

  lemma {:induction false} ConcatLength(parts: seq<string>)
    requires forall j :: 0 <= j < |parts| ==> |parts[j]| == 20
    ensures |Concat(parts)| == 20 * |parts|
  {
    if parts != [] {
      ConcatLength(parts[1..]);
    }
  }

  /** The table head declares `count` entries and gives object 0 the free
      entry of generation 65535. */
  lemma XrefHeadText(count: nat)
    ensures XrefHead(count) == "xref\n" + "0 " + Show(count) + "\n" + "0000000000 65535 f \n"
  {
    var parts := ["xref\n", "0 " + Show(count) + "\n", "0000000000 65535 f \n"];
    ConcatLastThree(parts);
    assert parts[0..] == parts;
  }

  /** The trailer up to and including its `/Size` line. */
  function SizeLine(size: nat): string
  {
    Concat(["\n", "trailer\n", "<<\n", "/Size " + Show(size) + "\n"])
  }

  lemma TrailerStart(size: nat, info: nat, root: nat, pdfid: string, xrefOffset: nat)
    ensures |SizeLine(size)| <= |Trailer(size, info, root, pdfid, xrefOffset)|
    ensures Trailer(size, info, root, pdfid, xrefOffset)[..|SizeLine(size)|] == SizeLine(size)
  {
    var parts := TrailerLines(size, info, root, pdfid, xrefOffset);
    ConcatSplit(parts, 4);
    assert parts[..4] == ["\n", "trailer\n", "<<\n", "/Size " + Show(size) + "\n"];
    SliceOfLeft(SizeLine(size), Concat(parts[4..]), 0, |SizeLine(size)|);
  }

  /** The table at `x` has its head, `count` entries of 20 characters,
      and then the trailer up to its `/Size` line, which gives
      `count + 1`. */
  ghost predicate SizeDeclared(text: string, x: nat, count: nat)
  {
    var head := XrefHead(count + 1);
    var e := x + |head| + 20 * count;
    && x + |head| <= |text|
    && text[x..x + |head|] == head
    && e + |SizeLine(count + 1)| <= |text|
    && text[e..e + |SizeLine(count + 1)|] == SizeLine(count + 1)
  }

  lemma SizeAfter(written: string, objects: seq<nat>, trailer: string)
    requires OffsetsFit(objects)
    requires |SizeLine(|objects| + 1)| <= |trailer| && trailer[..|SizeLine(|objects| + 1)|] == SizeLine(|objects| + 1)
    ensures SizeDeclared(written + "\n" + XrefHead(|objects| + 1) + Entries(objects) + trailer, |written| + 1, |objects|)
  {
    EntryLinesLength(objects);
    ConcatLength(EntryLines(objects));
    PartsAt(written + "\n", XrefHead(|objects| + 1), Entries(objects), trailer, |SizeLine(|objects| + 1)|);
  }

  /** In `a + b + c + d`, `b` starts right after `a`, and `d` right after `c`. */
  lemma PartsAt(a: string, b: string, c: string, d: string, k: nat)
    requires k <= |d|
    ensures (a + b + c + d)[|a|..|a| + |b|] == b
    ensures (a + b + c + d)[|a| + |b| + |c|..|a| + |b| + |c| + k] == d[..k]
  {
    SliceOfRight(a, b, 0, |b|);
    assert b[0..|b|] == b;
    SliceOfLeft(a + b, c, |a|, |a| + |b|);
    SliceOfLeft(a + b + c, d, |a|, |a| + |b|);
    SliceOfRight(a + b + c, d, 0, k);
    assert d[0..k] == d[..k];
  }

  lemma FinishSize(f: PdfStream, layout: Layout, pdfid: string)
    requires Valid(f) && |f.written| < Pow10(10)
    ensures var p := Finish(f, layout, pdfid);
      SizeDeclared(p.text, p.xrefOffset, |p.objects|)
  {
    FinishParts(f, layout, pdfid);
    var p := Finish(f, layout, pdfid);
    HeadersFit(f.written, f.objects);
    var n := |f.objects| + 1;
    TrailerStart(n, layout.info, layout.catalog, pdfid, p.xrefOffset);
    SizeAfter(f.written, f.objects, Trailer(n, layout.info, layout.catalog, pdfid, p.xrefOffset));
  }

  /** The table declares one entry per object plus the free entry of
      object 0 (see `XrefHeadText`), 20 characters each, and the trailer's
      `/Size` right after the last entry gives that same count (sections
      7.5.4 and 7.5.5 of ISO 32000-1). */
  lemma SizeMatchesTable(pages: seq<PageInput>, pdfid: string)
    requires WriteGrayPdf(pages, pdfid).xrefOffset < Pow10(10)
    ensures var p := WriteGrayPdf(pages, pdfid);
      SizeDeclared(p.text, p.xrefOffset, |p.objects|)
  {
    var (f, layout) := WriteObjects(pages);
    WriteObjectsValid(pages);
    FinishParts(f, layout, pdfid);
    FinishSize(f, layout, pdfid);
  }

  // The end of the file.

  ghost predicate EndsWith(s: string, t: string)
  {
    |t| <= |s| && s[|s| - |t|..] == t
  }

  lemma EndsWithTrans(a: string, b: string, c: string)
    requires EndsWith(a, b) && EndsWith(b, c)
    ensures EndsWith(a, c)
  {
    assert a[|a| - |c|..] == a[|a| - |b|..][|b| - |c|..];
  }

  lemma EndsWithAppend(a: string, b: string)
    ensures EndsWith(a + b, b)
  {
    assert (a + b)[|a|..] == b;
  }

  /** The text of the last writes ends the text of all of them. */
  lemma {:induction false} ConcatEndsWith(parts: seq<string>, k: nat)
    requires k <= |parts|
    ensures EndsWith(Concat(parts), Concat(parts[k..]))
    decreases k
  {
    if k == 0 {
      assert parts[0..] == parts;
      EndsWithAppend([], Concat(parts));
    } else {
      var rest := parts[1..];
      assert rest[k - 1..] == parts[k..];
      ConcatEndsWith(rest, k - 1);
      EndsWithAppend(parts[0], Concat(rest));
      EndsWithTrans(Concat(parts), Concat(rest), Concat(parts[k..]));
    }
  }

  /** The trailer ends with `startxref`, the offset and the end marker. */
  lemma TrailerEnd(size: nat, info: nat, root: nat, pdfid: string, xrefOffset: nat)
    ensures EndsWith(Trailer(size, info, root, pdfid, xrefOffset), "startxref\n" + Show(xrefOffset) + "\n" + "%%EOF\n")
  {
    var parts := TrailerLines(size, info, root, pdfid, xrefOffset);
    ConcatEndsWith(parts, 8);
    ConcatLastThree(parts);
    assert "startxref\n" + (Show(xrefOffset) + "\n") + "%%EOF\n" == "startxref\n" + Show(xrefOffset) + "\n" + "%%EOF\n";
  }

  lemma ConcatLastThree(parts: seq<string>)
    requires |parts| >= 3
    ensures var n := |parts|; Concat(parts[n - 3..]) == parts[n - 3] + parts[n - 2] + parts[n - 1]
  {
    var n := |parts|;
    var last := parts[n - 3..];
    assert Concat(last[2..]) == parts[n - 1] + Concat([]) by {
      assert last[2..] == [parts[n - 1]] && last[2..][1..] == [];
    }
    assert Concat(last[1..]) == parts[n - 2] + Concat(last[2..]) by {
      assert last[1..][1..] == last[2..];
    }
  }

  /** The number between `startxref` and the end marker. */
  lemma ReadEnd(text: string, s: string)
    requires EndsWith(text, "startxref\n" + s + "\n" + "%%EOF\n")
    ensures |s| + 7 <= |text| && text[|text| - |s| - 7..|text| - 7] == s
  {
    var t := "startxref\n" + s + "\n" + "%%EOF\n";
    assert text[|text| - |s| - 7..|text| - 7] == t[10..10 + |s|];
  }

  /** The text ends with `%%EOF`, and the number just before it reads as
      `x`. */
  ghost predicate EndsWithOffset(text: string, x: nat)
  {
    var s := Show(x);
    && EndsWith(text, "%%EOF\n")
    && |s| + 7 <= |text|
    && AllDigits(text[|text| - |s| - 7..|text| - 7])
    && Read(text[|text| - |s| - 7..|text| - 7]) == x
  }

  lemma TrailerReadsBack(front: string, size: nat, info: nat, root: nat, pdfid: string, x: nat)
    ensures EndsWithOffset(front + Trailer(size, info, root, pdfid, x), x)
  {
    var t := Trailer(size, info, root, pdfid, x);
    TrailerEnd(size, info, root, pdfid, x);
    EndsWithAppend(front, t);
    EndsWithTrans(front + t, t, "startxref\n" + Show(x) + "\n" + "%%EOF\n");
    EndReadsBack(front + t, x);
  }

  /** A text that ends with `startxref`, the numeral of `x` and the end
      marker ends with the offset `x`. */
  lemma EndReadsBack(text: string, x: nat)
    requires EndsWith(text, "startxref\n" + Show(x) + "\n" + "%%EOF\n")
    ensures EndsWithOffset(text, x)
  {
    var s := Show(x);
    EndsWithAppend("startxref\n" + s + "\n", "%%EOF\n");
    EndsWithTrans(text, "startxref\n" + s + "\n" + "%%EOF\n", "%%EOF\n");
    ReadEnd(text, s);
    ReadShow(x);
  }

  lemma FinishEnd(f: PdfStream, layout: Layout, pdfid: string)
    requires Tracks(f)
    ensures var p := Finish(f, layout, pdfid);
      EndsWithOffset(p.text, p.xrefOffset)
  {
    FinishParts(f, layout, pdfid);
    var p := Finish(f, layout, pdfid);
    TrailerReadsBack(f.written + "\n" + XrefHead(|f.objects| + 1) + Entries(f.objects),
      |f.objects| + 1, layout.info, layout.catalog, pdfid, p.xrefOffset);
  }

  /** The file ends with `%%EOF`, after the offset of the table, which
      `startxref` gives as a decimal number (section 7.5.5 of ISO 32000-1). */
  lemma StartXrefReadsBack(pages: seq<PageInput>, pdfid: string)
    ensures var p := WriteGrayPdf(pages, pdfid);
      EndsWithOffset(p.text, p.xrefOffset)
  {
    var (f, layout) := WriteObjects(pages);
    WriteObjectsValid(pages);
    FinishEnd(f, layout, pdfid);
  }
}
