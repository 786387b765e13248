/** The four bootloaders, given the same image, leave the same flash behind. */
module Agreement {
  import opened Bytes
  import opened FlashMemory
  import opened Endpoints
  import HexParser
  import HexStreams
  import HexImage
  import Dfu
  import DfuPages
  import DfuImage
  import Cdc
  import CdcImage
  import Hid

  /** An image of at least one page is printed into the flash as it is. */
  lemma Printed(h: HexParser.Parser, image: seq<byte>, chunks: seq<seq<byte>>, text: string)
    requires HexParser.PowerUp(h) && HexImage.Printable(chunks) && Flatten(chunks) == image
    requires h.flash.chip.pageSize <= |image| <= h.flash.chip.bootStart && |image| < 0x10000
    requires HexStreams.Clean(text) == HexStreams.Clean(HexImage.PrintImage(chunks))
    ensures HexParser.Run(h, text).flash.memory == Stored(h.flash.chip, h.flash.memory, 0, image)
  {
    hide HexParser.Run, HexImage.PrintImage, HexStreams.Clean, Stored;
    HexImage.LoadImage(h, chunks, text);
    assert HexImage.Kept(h.flash.chip, image) == image by { KeptWhole(h.flash.chip, image); }
  }

  /**
   * An image of whole pages from address 0, printed as Intel HEX, sent as a DFU download,
   * written with AVR109 blocks or reported page by page: from the same memory all four
   * bootloaders end with the same memory.
   */
  lemma {:induction false} SameImageSameFlash(
    printer: HexParser.Parser, dfu: Dfu.Device, cdc: Cdc.Programmer, hid: Hid.Device, pages: seq<seq<byte>>,
    chunks: seq<seq<byte>>, text: string,
    length: word, packets: seq<seq<byte>>,
    setup: seq<seq<byte>>, writes: seq<seq<seq<byte>>>,
    reports: seq<Hid.Report>)
    requires var chip := printer.flash.chip;
      && dfu.flash.chip == chip && cdc.flash.chip == chip && hid.flash.chip == chip
      && 0 < |Flatten(pages)| <= chip.bootStart && |Flatten(pages)| < 0x10000
    requires printer.flash.memory == dfu.flash.memory == cdc.flash.memory == hid.flash.memory
    requires HexParser.PowerUp(printer) && HexImage.Printable(chunks) && Flatten(chunks) == Flatten(pages)
    requires HexStreams.Clean(text) == HexStreams.Clean(HexImage.PrintImage(chunks))
    requires DfuImage.Available(dfu) && dfu.page64 == 0 && length > 6
    requires DfuImage.ProgramPackets(packets, 0, Flatten(pages))
    requires setup != [] && Flatten(setup) == CdcImage.SetAddressCommand(0)
    requires CdcImage.PageCommands(writes, pages, cdc.flash.chip.pageSize)
    requires Hid.ReportsFor(hid.flash.chip, reports, pages)
    ensures HexParser.Run(printer, text).flash.memory
         == Dfu.Handle(dfu, Dfu.Dnload(length, packets)).0.flash.memory
         == Cdc.Tasks(cdc, [setup] + writes).flash.memory
         == Hid.HandleAll(hid, reports).flash.memory
  {
    hide HexParser.Run, HexImage.PrintImage, HexImage.Printable, HexParser.PowerUp, HexStreams.Clean,
         Dfu.Handle, DfuImage.ProgramPackets, DfuPages.PageWrites, DfuPages.Wrapped, Cdc.Tasks, CdcImage.PageCommands,
         CdcImage.SetAddressCommand, Hid.ReportsFor, Hid.HandleAll, Stored, Flatten;
    var chip, image := printer.flash.chip, Flatten(pages);
    Hid.ReportImage(hid, reports, pages);
    FirstPage(chip, |image|);
    EvenBoundary(chip, |image|);
    Printed(printer, image, chunks, text);
    DfuImage.ProgramImage(dfu, length, packets, 0, image);
    CdcImage.WriteImage(cdc, 0, setup, writes, pages);
  }

  lemma KeptWhole(chip: Chip, image: seq<byte>)
    requires chip.pageSize <= |image| <= chip.bootStart
    ensures HexImage.Kept(chip, image) == image
  {
    assert image[..|image|] == image;
  }
}
