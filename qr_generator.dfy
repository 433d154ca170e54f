/** `QRGenerator`: the file each textbook's QR image is written to, the text encoded in the
    images of a batch, and the placement of up to 21 stickers on an A4 print sheet. The
    pixels (the `qrcode` and PIL calls) are not modelled: an image is its path, its encoded
    text and its side length. */
module QrGenerator {
  import opened Common
  import opened Config

  /** The `id`, `subject` and `title` keys of one element of `textbooks_data`. */
  datatype TextbookData = TextbookData(id: int, subject: string, title: string)

  /** A written QR image file. */
  datatype QrImage = QrImage(path: string, data: string, size: int)

  // ---------------------------------------------------------------------------
  // generate_qr_code

  function QrFileName(id: int): string
  {
    "textbook_" + IntString(id) + ".png"
  }

  /** `os.path.join(QR_CODES_DIR, filename)`. */
  function QrFilePath(id: int): string
  {
    QrCodesDir + "/" + QrFileName(id)
  }

  /** The image for `data`, resized to `QR_CODE_SIZE` and saved under the textbook's id. */
  function QrCodeImage(data: string, id: int): (img: QrImage)
    ensures img.data == data && img.size == QrCodeSize
    ensures img.path == "static/qr_codes/textbook_" + IntString(id) + ".png"
  {
    QrImage(QrFilePath(id), data, QrCodeSize)
  }

  /** Two textbooks share an image file exactly when they share an id. */
  lemma QrFilePathInjective(a: int, b: int)
    ensures QrFilePath(a) == QrFilePath(b) <==> a == b
  {
    var dir := QrCodesDir + "/textbook_";
    var x, y := IntString(a), IntString(b);
    assert QrFilePath(a) == dir + x + ".png";
    assert QrFilePath(b) == dir + y + ".png";
    if QrFilePath(a) == QrFilePath(b) {
      assert |x| == |y|;
      assert (dir + x + ".png")[|dir|..|dir| + |x|] == x;
      assert (dir + y + ".png")[|dir|..|dir| + |y|] == y;
      IntStringInjective(a, b);
    }
  }

  // ---------------------------------------------------------------------------
  // generate_qr_batch

  /** `f"ID:{id}|SUBJ:{subject}|TITLE:{title}"`. */
  function QrPayload(d: TextbookData): string
  {
    "ID:" + IntString(d.id) + "|SUBJ:" + d.subject + "|TITLE:" + d.title
  }

  lemma IntStringHasNoBar(n: int)
    ensures forall i :: 0 <= i < |IntString(n)| ==> IntString(n)[i] != '|'
  {
    if n < 0 {
      var s := IntString(n);
      forall i | 0 <= i < |s| ensures s[i] != '|' {
        if i > 0 {
          assert s[i] == DecimalString(-n)[i - 1];
        }
      }
    }
  }

  /** Text without a bar, followed by a bar, is read back up to the first bar. */
  lemma UpToBar(x: string, ra: string, y: string, rb: string)
    requires forall i :: 0 <= i < |x| ==> x[i] != '|'
    requires forall i :: 0 <= i < |y| ==> y[i] != '|'
    requires |ra| > 0 && ra[0] == '|' && |rb| > 0 && rb[0] == '|'
    requires x + ra == y + rb
    ensures x == y
  {
    assert (x + ra)[|x|] == '|';
    assert (y + rb)[|y|] == '|';
    assert |x| == |y|;
    assert (x + ra)[..|x|] == x && (y + rb)[..|y|] == y;
  }

  /** The payload names its textbook: the id is the text between `ID:` and the first bar,
      whatever the subject and title hold. */
  lemma QrPayloadNamesId(a: TextbookData, b: TextbookData)
    ensures QrPayload(a) == QrPayload(b) ==> a.id == b.id
  {
    var x, y := IntString(a.id), IntString(b.id);
    var ra := "|SUBJ:" + a.subject + "|TITLE:" + a.title;
    var rb := "|SUBJ:" + b.subject + "|TITLE:" + b.title;
    assert QrPayload(a) == "ID:" + (x + ra) && QrPayload(b) == "ID:" + (y + rb);
    if QrPayload(a) == QrPayload(b) {
      assert QrPayload(a)[3..] == x + ra && QrPayload(b)[3..] == y + rb;
      IntStringHasNoBar(a.id);
      IntStringHasNoBar(b.id);
      UpToBar(x, ra, y, rb);
      IntStringInjective(a.id, b.id);
    }
  }

  function BatchImage(d: TextbookData): QrImage
  {
    QrCodeImage(QrPayload(d), d.id)
  }

  function ItemPath(d: TextbookData): string
  {
    QrFilePath(d.id)
  }

  /** One image per element, in order, each encoding its element's payload; the result is
      their paths. */
  method GenerateQrBatch(items: seq<TextbookData>) returns (paths: seq<string>, images: seq<QrImage>)
    ensures images == Map(items, BatchImage)
    ensures paths == Map(items, ItemPath)
  {
    paths, images := [], [];
    var j := 0;
    while j < |items|
      invariant 0 <= j <= |items|
      invariant images == Map(items[..j], BatchImage)
      invariant paths == Map(items[..j], ItemPath)
    {
      var img := BatchImage(items[j]);
      PrefixStep(items, j);
      MapAppend(items[..j], items[j], BatchImage);
      MapAppend(items[..j], items[j], ItemPath);
      images := images + [img];
      paths := paths + [img.path];
      j := j + 1;
    }
    assert items[..|items|] == items;
  }

  /** Each path is the file of the image made for its element; elements with distinct ids
      get distinct files, and each image's text names the id of the element it was made
      for. */
  lemma GenerateQrBatchMeaning(items: seq<TextbookData>, k: nat, m: nat)
    requires k < |items| && m < |items|
    ensures Map(items, ItemPath)[k] == Map(items, BatchImage)[k].path
    ensures Map(items, ItemPath)[k] == Map(items, ItemPath)[m] <==> items[k].id == items[m].id
    ensures StartsWith(Map(items, BatchImage)[k].data, "ID:" + IntString(items[k].id) + "|")
  {
    QrFilePathInjective(items[k].id, items[m].id);
    PayloadStart(items[k]);
  }

  lemma PayloadStart(d: TextbookData)
    ensures StartsWith(QrPayload(d), "ID:" + IntString(d.id) + "|")
  {
    var head := "ID:" + IntString(d.id) + "|";
    assert QrPayload(d) == head + ("SUBJ:" + d.subject + "|TITLE:" + d.title);
  }

  // ---------------------------------------------------------------------------
  // create_print_sheet

  /** An A4 page at 300 DPI. */
  const SheetWidth: int := 2480
  const SheetHeight: int := 3508
  /** `textbooks_data[:21]`: a sheet holds three columns of seven stickers. */
  const SheetCapacity: nat := 21
  const StickerWidth: int := SheetWidth / QrCodesPerRow
  const StickerHeight: int := SheetHeight / QrCodesPerColumn
  /** `min(sticker_width, sticker_height) - 40`. */
  const StickerQrSize: int := Min(StickerWidth, StickerHeight) - 40

  datatype Sticker = Sticker(image: QrImage, x: int, y: int, qrSize: int, textX: int, textY: int, caption: string)

  /** The i-th sticker: its QR image centred in cell (i // 3, i % 3) and a two-line label
      (the subject cut to 20 characters, the title to 30) below it. */
  function StickerAt(i: nat, d: TextbookData): Sticker
  {
    var row, col := i / QrCodesPerRow, i % QrCodesPerRow;
    var x := col * StickerWidth + (StickerWidth - StickerQrSize) / 2;
    var y := row * StickerHeight + (StickerHeight - StickerQrSize) / 2;
    Sticker(QrCodeImage(QrPayload(d), d.id), x, y, StickerQrSize, col * StickerWidth + 20, y + StickerQrSize + 10,
            Take(d.subject, 20) + "\n" + Take(d.title, 30))
  }

  /** The stickers of `enumerate(items)`, in order. */
  function Layout(items: seq<TextbookData>): (r: seq<Sticker>)
    ensures |r| == |items|
  {
    Enumerate(items, StickerAt)
  }

  function SheetPath(count: nat): string
  {
    QrCodesDir + "/qr_sheet_" + IntString(count) + ".png"
  }

  /** The first 21 elements are placed; the sheet's file name counts every element given. */
  method CreatePrintSheet(items: seq<TextbookData>) returns (stickers: seq<Sticker>, sheetPath: string)
    ensures stickers == Layout(Take(items, SheetCapacity))
    ensures sheetPath == SheetPath(|items|)
  {
    var placed := Take(items, SheetCapacity);
    stickers := [];
    var i := 0;
    while i < |placed|
      invariant 0 <= i <= |placed|
      invariant stickers == Layout(placed[..i])
    {
      assert placed[..i + 1][..i] == placed[..i];
      stickers := stickers + [StickerAt(i, placed[i])];
      i := i + 1;
    }
    assert placed[..|placed|] == placed;
    sheetPath := SheetPath(|items|);
  }

  /** The i-th sticker of a sheet is placed and labelled for the i-th element. */
  lemma LayoutMeaning(items: seq<TextbookData>, i: nat)
    requires i < |items|
    ensures Layout(items)[i] == StickerAt(i, items[i])
  {
    EnumerateAt(items, StickerAt, i);
  }

  /** The sheet holds exactly the three-by-seven grid. */
  lemma SheetGrid()
    ensures SheetCapacity == QrCodesPerRow * QrCodesPerColumn
    ensures StickerWidth == 826 && StickerHeight == 501 && StickerQrSize == 461
    ensures QrCodesPerRow * StickerWidth <= SheetWidth && QrCodesPerColumn * StickerHeight <= SheetHeight
  {
  }

  /** Each of the 21 stickers' QR image lies inside its own cell, and its label starts 10
      pixels above the cell's lower edge. */
  lemma StickerInCell(i: nat, d: TextbookData)
    requires i < SheetCapacity
    ensures var s, row, col := StickerAt(i, d), i / QrCodesPerRow, i % QrCodesPerRow;
            row < QrCodesPerColumn &&
            col * StickerWidth <= s.x && s.x + s.qrSize <= (col + 1) * StickerWidth <= SheetWidth &&
            row * StickerHeight <= s.y && s.y + s.qrSize <= (row + 1) * StickerHeight <= SheetHeight &&
            s.textY + 10 == (row + 1) * StickerHeight
  {
    SheetGrid();
  }

  /** Two different stickers of a sheet never overlap. */
  lemma StickersDisjoint(i: nat, j: nat, a: TextbookData, b: TextbookData)
    requires i < SheetCapacity && j < SheetCapacity && i != j
    ensures var s, t := StickerAt(i, a), StickerAt(j, b);
            s.x + s.qrSize <= t.x || t.x + t.qrSize <= s.x || s.y + s.qrSize <= t.y || t.y + t.qrSize <= s.y
  {
    StickerInCell(i, a);
    StickerInCell(j, b);
    var ri, ci, rj, cj := i / 3, i % 3, j / 3, j % 3;
    assert i == 3 * ri + ci && j == 3 * rj + cj;
    if ri == rj {
      assert ci != cj;
      if ci < cj {
        assert (ci + 1) * 826 <= cj * 826;
      } else {
        assert (cj + 1) * 826 <= ci * 826;
      }
    } else if ri < rj {
      assert (ri + 1) * 501 <= rj * 501;
    } else {
      assert (rj + 1) * 501 <= ri * 501;
    }
  }
}
