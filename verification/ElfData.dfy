/** ELF file and section headers converted between byte orders and classes, and the packed
    symbol info byte. */
module ElfData {
  import opened Bits
  import opened ByteOrder

  /** The fields of an ELF header. `magic` and `pad` are bytes in file order. */
  datatype Header = Header(
    magic: seq<Byte>, fileClass: nat, data: nat, fileVersion: nat, osabi: nat, abiversion: nat, pad: seq<Byte>,
    fileType: nat, machine: nat, version: nat, entry: nat, phoff: nat, shoff: nat, flags: nat,
    ehsize: nat, phentsize: nat, phnum: nat, shentsize: nat, shnum: nat, shstrndx: nat)

  /** Addresses and offsets take 4 bytes in the 32-bit class and 8 in the 64-bit class. */
  function AddressSize(wide: bool): nat {
    if wide then 8 else 4
  }

  predicate Sized(h: Header, wide: bool) {
    && |h.magic| == 4 && |h.pad| == 7
    && h.fileClass < Pow256(1) && h.data < Pow256(1) && h.fileVersion < Pow256(1)
    && h.osabi < Pow256(1) && h.abiversion < Pow256(1)
    && h.fileType < Pow256(2) && h.machine < Pow256(2)
    && h.version < Pow256(4) && h.flags < Pow256(4)
    && h.entry < Pow256(AddressSize(wide)) && h.phoff < Pow256(AddressSize(wide)) && h.shoff < Pow256(AddressSize(wide))
    && h.ehsize < Pow256(2) && h.phentsize < Pow256(2) && h.phnum < Pow256(2)
    && h.shentsize < Pow256(2) && h.shnum < Pow256(2) && h.shstrndx < Pow256(2)
  }

  /** A header with every number swizzled. */
  function Swizzled(h: Header, wide: bool, from: Order, to: Order, here: Order): Header
    requires Sized(h, wide) && here != Native
  {
    var a := AddressSize(wide);
    Header(
      h.magic, Swizzle(h.fileClass, 1, from, to, here), Swizzle(h.data, 1, from, to, here),
      Swizzle(h.fileVersion, 1, from, to, here), Swizzle(h.osabi, 1, from, to, here),
      Swizzle(h.abiversion, 1, from, to, here), h.pad,
      Swizzle(h.fileType, 2, from, to, here), Swizzle(h.machine, 2, from, to, here),
      Swizzle(h.version, 4, from, to, here), Swizzle(h.entry, a, from, to, here),
      Swizzle(h.phoff, a, from, to, here), Swizzle(h.shoff, a, from, to, here),
      Swizzle(h.flags, 4, from, to, here), Swizzle(h.ehsize, 2, from, to, here),
      Swizzle(h.phentsize, 2, from, to, here), Swizzle(h.phnum, 2, from, to, here),
      Swizzle(h.shentsize, 2, from, to, here), Swizzle(h.shnum, 2, from, to, here),
      Swizzle(h.shstrndx, 2, from, to, here))
  }

  /** The addresses and offsets of a header cut to those of a class. */
  function Cut(h: Header, wide: bool): Header {
    var cut := Pow256(AddressSize(wide));
    h.(entry := h.entry % cut, phoff := h.phoff % cut, shoff := h.shoff % cut)
  }

  /** A header of one class made from one of the other: every number is swizzled at the width
      it has, and then cut to the width it gets. */
  function Converted(h: Header, wide: bool, toWide: bool, from: Order, to: Order, here: Order): Header
    requires Sized(h, wide) && here != Native
  {
    Cut(Swizzled(h, wide, from, to, here), toWide)
  }

  /** The addresses and offsets of a header fit the class. */
  predicate FitsClass(h: Header, wide: bool) {
    var cut := Pow256(AddressSize(wide));
    h.entry < cut && h.phoff < cut && h.shoff < cut
  }

  lemma CutExact(h: Header, wide: bool)
    ensures Cut(h, wide) == h <==> FitsClass(h, wide)
  {
    hide Pow256;
    var cut := Pow256(AddressSize(wide));
    Uncut(h.entry, cut);
    Uncut(h.phoff, cut);
    Uncut(h.shoff, cut);
  }

  lemma Uncut(v: nat, cut: nat)
    requires cut > 0
    ensures v % cut == v <==> v < cut
  {
  }

  lemma Narrower()
    ensures Pow256(4) <= Pow256(8)
  {
  }

  lemma SwizzleAll(n: nat, from: Order, to: Order, here: Order)
    requires here != Native && n > 0
    ensures forall v :: 0 <= v < Pow256(n) ==>
              && Swizzle(v, n, from, to, here) < Pow256(n)
              && Swizzle(Swizzle(v, n, from, to, here), n, to, from, here) == v
  {
    hide Pow256, Swizzle;
    forall v | 0 <= v < Pow256(n)
      ensures Swizzle(v, n, from, to, here) < Pow256(n)
      ensures Swizzle(Swizzle(v, n, from, to, here), n, to, from, here) == v
    {
      SwizzleRoundTrip(v, n, from, to, here);
    }
  }

  /** Converting a header to another order and back, within its class, is the identity on every
      field. */
  lemma HeaderRoundTrip(h: Header, wide: bool, from: Order, to: Order, here: Order)
    requires Sized(h, wide) && here != Native
    ensures Sized(Converted(h, wide, wide, from, to, here), wide)
    ensures Converted(Converted(h, wide, wide, from, to, here), wide, wide, to, from, here) == h
  {
    hide Pow256, Swizzle;
    SwizzledBack(h, wide, from, to, here);
    hide Swizzled, Cut;
    CutExact(Swizzled(h, wide, from, to, here), wide);
    CutExact(h, wide);
  }

  lemma SwizzledBack(h: Header, wide: bool, from: Order, to: Order, here: Order)
    requires Sized(h, wide) && here != Native
    ensures Sized(Swizzled(h, wide, from, to, here), wide)
    ensures Swizzled(Swizzled(h, wide, from, to, here), wide, to, from, here) == h
  {
    hide Pow256, Swizzle;
    SwizzleAll(1, from, to, here);
    SwizzleAll(2, from, to, here);
    SwizzleAll(4, from, to, here);
    SwizzleAll(AddressSize(wide), from, to, here);
  }

  // ---------- the header as it lies in a file

  function HeaderSize(wide: bool): nat {
    if wide then 64 else 52
  }

  function Field(image: seq<Byte>, at: nat, n: nat, o: Order): nat
    requires at + n <= |image| && o != Native
  {
    Positional(image[at..at + n], o)
  }

  /** The header a file image holds when read in order `o`. */
  function Parsed(image: seq<Byte>, wide: bool, o: Order): Header
    requires |image| == HeaderSize(wide) && o != Native
  {
    var a := AddressSize(wide);
    var rest := 24 + 3 * a;
    Header(
      image[0..4], Field(image, 4, 1, o), Field(image, 5, 1, o), Field(image, 6, 1, o), Field(image, 7, 1, o),
      Field(image, 8, 1, o), image[9..16],
      Field(image, 16, 2, o), Field(image, 18, 2, o), Field(image, 20, 4, o),
      Field(image, 24, a, o), Field(image, 24 + a, a, o), Field(image, 24 + 2 * a, a, o),
      Field(image, rest, 4, o), Field(image, rest + 4, 2, o), Field(image, rest + 6, 2, o),
      Field(image, rest + 8, 2, o), Field(image, rest + 10, 2, o), Field(image, rest + 12, 2, o),
      Field(image, rest + 14, 2, o))
  }

  lemma ParsedSized(image: seq<Byte>, wide: bool, o: Order)
    requires |image| == HeaderSize(wide) && o != Native
    ensures Sized(Parsed(image, wide, o), wide)
  {
    hide Pow256, Positional;
  }

  lemma FieldSwizzled(image: seq<Byte>, at: nat, n: nat, o: Order, here: Order)
    requires at + n <= |image| && n > 0 && here != Native
    ensures Field(image, at, n, here) < Pow256(n)
    ensures Swizzle(Field(image, at, n, here), n, o, Native, here)
            == Field(image, at, n, if o == Native then here else o)
  {
    hide Positional, Swizzle, Pow256;
    LoadThenSwizzle(image[at..at + n], o, here);
  }

  /** What `from` is for: the image of a file in order `o`, looked at through the machine's
      own order and then converted to a native header, gives the numbers the file means, with
      the low bytes of its addresses; all of them, if and only if its addresses fit. */
  lemma ConvertedMeansFile(image: seq<Byte>, wide: bool, toWide: bool, o: Order, here: Order)
    requires |image| == HeaderSize(wide) && here != Native
    ensures Sized(Parsed(image, wide, here), wide)
    ensures var r := Converted(Parsed(image, wide, here), wide, toWide, o, Native, here);
            var meant := Parsed(image, wide, if o == Native then here else o);
            var cut := Pow256(if toWide then 8 else 4);
            && r == meant.(entry := meant.entry % cut, phoff := meant.phoff % cut, shoff := meant.shoff % cut)
            && (r == meant <==> meant.entry < cut && meant.phoff < cut && meant.shoff < cut)
            && (wide == toWide || toWide ==> r == meant)
  {
    SwizzledMeansFile(image, wide, o, here);
    var meant := Parsed(image, wide, if o == Native then here else o);
    ParsedSized(image, wide, if o == Native then here else o);
    Narrower();
    CutExact(meant, toWide);
  }

  lemma SwizzledMeansFile(image: seq<Byte>, wide: bool, o: Order, here: Order)
    requires |image| == HeaderSize(wide) && here != Native
    ensures Sized(Parsed(image, wide, here), wide)
    ensures Swizzled(Parsed(image, wide, here), wide, o, Native, here)
            == Parsed(image, wide, if o == Native then here else o)
  {
    ParsedSized(image, wide, here);
    hide Pow256, Swizzle, Field;
    var a := AddressSize(wide);
    var rest := 24 + 3 * a;
    FieldSwizzled(image, 4, 1, o, here);
    FieldSwizzled(image, 5, 1, o, here);
    FieldSwizzled(image, 6, 1, o, here);
    FieldSwizzled(image, 7, 1, o, here);
    FieldSwizzled(image, 8, 1, o, here);
    FieldSwizzled(image, 16, 2, o, here);
    FieldSwizzled(image, 18, 2, o, here);
    FieldSwizzled(image, 20, 4, o, here);
    FieldSwizzled(image, 24, a, o, here);
    FieldSwizzled(image, 24 + a, a, o, here);
    FieldSwizzled(image, 24 + 2 * a, a, o, here);
    FieldSwizzled(image, rest, 4, o, here);
    FieldSwizzled(image, rest + 4, 2, o, here);
    FieldSwizzled(image, rest + 6, 2, o, here);
    FieldSwizzled(image, rest + 8, 2, o, here);
    FieldSwizzled(image, rest + 10, 2, o, here);
    FieldSwizzled(image, rest + 12, 2, o, here);
    FieldSwizzled(image, rest + 14, 2, o, here);
  }

  /** A header object of one order and class. */
  class Ehdr {
    const order: Order
    const wide: bool
    var fields: Header

    constructor (order: Order, wide: bool, fields: Header)
      ensures this.order == order && this.wide == wide && this.fields == fields
    {
      this.order, this.wide, this.fields := order, wide, fields;
    }

    /** Overwrites every field with the other header's, in this header's order and class. */
    method From(o: Ehdr, here: Order)
      requires here != Native && Sized(o.fields, o.wide)
      modifies this
      ensures fields == Converted(old(o.fields), o.wide, wide, o.order, order, here)
    {
      hide Swizzle;
      var h, a, cut := o.fields, AddressSize(o.wide), Pow256(AddressSize(wide));
      var f, t := o.order, order;
      fields := fields.(magic := h.magic, pad := h.pad);
      fields := fields.(fileClass := Swizzle(h.fileClass, 1, f, t, here));
      fields := fields.(data := Swizzle(h.data, 1, f, t, here));
      fields := fields.(fileVersion := Swizzle(h.fileVersion, 1, f, t, here));
      fields := fields.(osabi := Swizzle(h.osabi, 1, f, t, here));
      fields := fields.(abiversion := Swizzle(h.abiversion, 1, f, t, here));
      fields := fields.(fileType := Swizzle(h.fileType, 2, f, t, here));
      fields := fields.(machine := Swizzle(h.machine, 2, f, t, here));
      fields := fields.(version := Swizzle(h.version, 4, f, t, here));
      fields := fields.(entry := Swizzle(h.entry, a, f, t, here) % cut);
      fields := fields.(phoff := Swizzle(h.phoff, a, f, t, here) % cut);
      fields := fields.(shoff := Swizzle(h.shoff, a, f, t, here) % cut);
      fields := fields.(flags := Swizzle(h.flags, 4, f, t, here));
      fields := fields.(ehsize := Swizzle(h.ehsize, 2, f, t, here));
      fields := fields.(phentsize := Swizzle(h.phentsize, 2, f, t, here));
      fields := fields.(phnum := Swizzle(h.phnum, 2, f, t, here));
      fields := fields.(shentsize := Swizzle(h.shentsize, 2, f, t, here));
      fields := fields.(shnum := Swizzle(h.shnum, 2, f, t, here));
      fields := fields.(shstrndx := Swizzle(h.shstrndx, 2, f, t, here));
    }
  }

  // ---------- section headers

  /** The fields of a section header, all of them numbers. */
  datatype Section = Section(
    name: nat, sectionType: nat, flags: nat, addr: nat, offset: nat, size: nat, link: nat, info: nat,
    addralign: nat, entsize: nat)

  /** The link to another section is a half-word in a native header and a word in a file. */
  function LinkSize(order: Order): nat {
    if order == Native then 2 else 4
  }

  predicate SectionSized(h: Section, wide: bool, order: Order) {
    var a := Pow256(AddressSize(wide));
    && h.name < Pow256(4) && h.sectionType < Pow256(4) && h.info < Pow256(4)
    && h.flags < a && h.addr < a && h.offset < a && h.size < a && h.addralign < a && h.entsize < a
    && h.link < Pow256(LinkSize(order))
  }

  lemma LinkFits(h: Section, wide: bool, order: Order)
    requires SectionSized(h, wide, order)
    ensures h.link < Pow256(4)
  {
    assert Pow256(2) <= Pow256(4);
  }

  /** The link number that a header of order `from` means in order `to`, before it is cut. */
  function LinkMeant(link: nat, from: Order, to: Order, here: Order): nat
    requires link < Pow256(4) && here != Native
  {
    Swizzle(link, 4, from, to, here)
  }

  /** A section header with every number swizzled; the link is cut to the type it gets. */
  function SectionSwizzled(h: Section, wide: bool, from: Order, to: Order, here: Order): Section
    requires SectionSized(h, wide, from) && here != Native
  {
    var a := AddressSize(wide);
    LinkFits(h, wide, from);
    Section(
      Swizzle(h.name, 4, from, to, here), Swizzle(h.sectionType, 4, from, to, here),
      Swizzle(h.flags, a, from, to, here), Swizzle(h.addr, a, from, to, here),
      Swizzle(h.offset, a, from, to, here), Swizzle(h.size, a, from, to, here),
      LinkMeant(h.link, from, to, here) % Pow256(LinkSize(to)), Swizzle(h.info, 4, from, to, here),
      Swizzle(h.addralign, a, from, to, here), Swizzle(h.entsize, a, from, to, here))
  }

  /** The numbers that depend on the class cut to those of a class. */
  function SectionCut(h: Section, wide: bool): Section {
    var cut := Pow256(AddressSize(wide));
    h.(flags := h.flags % cut, addr := h.addr % cut, offset := h.offset % cut, size := h.size % cut,
       addralign := h.addralign % cut, entsize := h.entsize % cut)
  }

  function SectionConverted(h: Section, wide: bool, toWide: bool, from: Order, to: Order, here: Order): Section
    requires SectionSized(h, wide, from) && here != Native
  {
    SectionCut(SectionSwizzled(h, wide, from, to, here), toWide)
  }

  lemma SectionUncut(h: Section, wide: bool, order: Order)
    requires SectionSized(h, wide, order)
    ensures SectionCut(h, wide) == h
  {
    hide Pow256;
    var cut := Pow256(AddressSize(wide));
    forall v | 0 <= v < cut ensures v % cut == v { Uncut(v, cut); }
  }

  /** Converting a section header of one class to another order and back is the identity on
      every field if and only if no link is cut: always towards a file, and towards a native
      header exactly when the link fits a half-word. */
  lemma SectionRoundTrip(h: Section, wide: bool, from: Order, to: Order, here: Order)
    requires SectionSized(h, wide, from) && here != Native
    ensures h.link < Pow256(4) && SectionSized(SectionConverted(h, wide, wide, from, to, here), wide, to)
    ensures SectionConverted(SectionConverted(h, wide, wide, from, to, here), wide, wide, to, from, here) == h
            <==> to != Native || LinkMeant(h.link, from, to, here) < Pow256(2)
  {
    SectionBack(h, wide, from, to, here);
    hide *;
    var there := SectionSwizzled(h, wide, from, to, here);
    LinkFits(h, wide, from);
    SectionUncut(there, wide, to);
    SectionUncut(SectionSwizzled(there, wide, to, from, here), wide, from);
    SectionConvertedIs(h, wide, wide, from, to, here);
    SectionConvertedIs(there, wide, wide, to, from, here);
  }

  lemma SectionConvertedIs(h: Section, wide: bool, toWide: bool, from: Order, to: Order, here: Order)
    requires SectionSized(h, wide, from) && here != Native
    ensures SectionConverted(h, wide, toWide, from, to, here)
            == SectionCut(SectionSwizzled(h, wide, from, to, here), toWide)
  {
  }

  lemma SectionBack(h: Section, wide: bool, from: Order, to: Order, here: Order)
    requires SectionSized(h, wide, from) && here != Native
    ensures h.link < Pow256(4)
    ensures var there := SectionSwizzled(h, wide, from, to, here);
            && SectionSized(there, wide, to)
            && SectionSized(SectionSwizzled(there, wide, to, from, here), wide, from)
            && (SectionSwizzled(there, wide, to, from, here) == h
                <==> to != Native || LinkMeant(h.link, from, to, here) < Pow256(2))
  {
    hide Pow256, Swizzle, LinkSize;
    LinkFits(h, wide, from);
    SwizzleAll(4, from, to, here);
    SwizzleAll(AddressSize(wide), from, to, here);
    LinkRoundTrip(h.link, from, to, here);
  }

  lemma LinkRoundTrip(link: nat, from: Order, to: Order, here: Order)
    requires link < Pow256(LinkSize(from)) && link < Pow256(4) && here != Native
    ensures var there := LinkMeant(link, from, to, here) % Pow256(LinkSize(to));
            && there < Pow256(LinkSize(to)) && there < Pow256(4)
            && LinkMeant(there, to, from, here) % Pow256(LinkSize(from)) < Pow256(LinkSize(from))
            && (LinkMeant(there, to, from, here) % Pow256(LinkSize(from)) == link
                <==> to != Native || LinkMeant(link, from, to, here) < Pow256(2))
  {
    assert Pow256(2) <= Pow256(4);
    hide Pow256, Swizzle;
    SwizzleAll(4, from, to, here);
    SwizzleAll(4, to, from, here);
    var meant := LinkMeant(link, from, to, here);
    Uncut(meant, Pow256(LinkSize(to)));
    Uncut(link, Pow256(LinkSize(from)));
    var there := meant % Pow256(LinkSize(to));
    if to == Native && meant >= Pow256(2) {
      assert there != meant;
      if from == Native { SameOrder(link, from, to, here); }
      assert Swizzle(Swizzle(there, 4, to, from, here), 4, from, to, here) == there;
      Uncut(LinkMeant(there, to, from, here), Pow256(4));
    }
  }

  lemma SameOrder(v: nat, from: Order, to: Order, here: Order)
    requires from == to && v < Pow256(4) && here != Native
    ensures Swizzle(v, 4, from, to, here) == v
  {
  }

  /** The section header at the start of a file image read in order `o`. */
  function SectionParsed(image: seq<Byte>, wide: bool, o: Order): Section
    requires |image| == SectionSize(wide) && o != Native
  {
    var a := AddressSize(wide);
    Section(
      Field(image, 0, 4, o), Field(image, 4, 4, o), Field(image, 8, a, o), Field(image, 8 + a, a, o),
      Field(image, 8 + 2 * a, a, o), Field(image, 8 + 3 * a, a, o), Field(image, 8 + 4 * a, 4, o),
      Field(image, 12 + 4 * a, 4, o), Field(image, 16 + 4 * a, a, o), Field(image, 16 + 5 * a, a, o))
  }

  function SectionSize(wide: bool): nat {
    if wide then 64 else 40
  }

  lemma SectionParsedSized(image: seq<Byte>, wide: bool, o: Order, order: Order)
    requires |image| == SectionSize(wide) && o != Native && order != Native
    ensures SectionSized(SectionParsed(image, wide, o), wide, order)
  {
    hide Pow256, Positional;
  }

  /** The same for section headers: converted to a native one, the image of a file gives the
      numbers the file means, with the low bytes of what is narrower there; all of them, if and
      only if the link fits a half-word and the rest its class. */
  lemma SectionMeansFile(image: seq<Byte>, wide: bool, toWide: bool, o: Order, here: Order)
    requires |image| == SectionSize(wide) && o != Native && here != Native
    ensures SectionSized(SectionParsed(image, wide, here), wide, o)
    ensures var r := SectionConverted(SectionParsed(image, wide, here), wide, toWide, o, Native, here);
            var meant, cut := SectionParsed(image, wide, o), Pow256(if toWide then 8 else 4);
            && r == Section(meant.name, meant.sectionType, meant.flags % cut, meant.addr % cut, meant.offset % cut,
                            meant.size % cut, meant.link % 0x1_0000, meant.info, meant.addralign % cut,
                            meant.entsize % cut)
            && (r == meant <==> meant.link < 0x1_0000 && FitsSection(meant, cut))
  {
    SectionParsedSized(image, wide, here, o);
    SectionSwizzledMeansFile(image, wide, o, here);
    LinkCut();
    hide *;
    var meant := SectionParsed(image, wide, o);
    SectionConvertedIs(SectionParsed(image, wide, here), wide, toWide, o, Native, here);
    SectionCutIs(meant, meant.link % 0x1_0000, toWide);
    Uncut(meant.link, 0x1_0000);
  }

  lemma LinkCut()
    ensures Pow256(LinkSize(Native)) == 0x1_0000
  {
  }

  lemma SectionCutIs(h: Section, link: nat, wide: bool)
    ensures var cut := Pow256(if wide then 8 else 4);
            var r := SectionCut(h.(link := link), wide);
            && r == Section(h.name, h.sectionType, h.flags % cut, h.addr % cut, h.offset % cut, h.size % cut, link,
                            h.info, h.addralign % cut, h.entsize % cut)
            && (r == h <==> link == h.link && FitsSection(h, cut))
  {
    hide Pow256;
    var cut := Pow256(if wide then 8 else 4);
    Uncut(h.flags, cut);
    Uncut(h.addr, cut);
    Uncut(h.offset, cut);
    Uncut(h.size, cut);
    Uncut(h.addralign, cut);
    Uncut(h.entsize, cut);
  }

  predicate FitsSection(h: Section, cut: nat) {
    h.flags < cut && h.addr < cut && h.offset < cut && h.size < cut && h.addralign < cut && h.entsize < cut
  }

  lemma SectionSwizzledMeansFile(image: seq<Byte>, wide: bool, o: Order, here: Order)
    requires |image| == SectionSize(wide) && o != Native && here != Native
    requires SectionSized(SectionParsed(image, wide, here), wide, o)
    ensures var meant := SectionParsed(image, wide, o);
            SectionSwizzled(SectionParsed(image, wide, here), wide, o, Native, here)
            == meant.(link := meant.link % Pow256(LinkSize(Native)))
  {
    hide Pow256, Swizzle, Field, SectionSized;
    var a := AddressSize(wide);
    FieldSwizzled(image, 0, 4, o, here);
    FieldSwizzled(image, 4, 4, o, here);
    FieldSwizzled(image, 8, a, o, here);
    FieldSwizzled(image, 8 + a, a, o, here);
    FieldSwizzled(image, 8 + 2 * a, a, o, here);
    FieldSwizzled(image, 8 + 3 * a, a, o, here);
    FieldSwizzled(image, 8 + 4 * a, 4, o, here);
    FieldSwizzled(image, 12 + 4 * a, 4, o, here);
    FieldSwizzled(image, 16 + 4 * a, a, o, here);
    FieldSwizzled(image, 16 + 5 * a, a, o, here);
  }

  /** A section header object of one order and class. */
  class Shdr {
    const order: Order
    const wide: bool
    var fields: Section

    constructor (order: Order, wide: bool, fields: Section)
      ensures this.order == order && this.wide == wide && this.fields == fields
    {
      this.order, this.wide, this.fields := order, wide, fields;
    }

    /** Overwrites every field with the other header's, in this header's order and class. */
    method From(o: Shdr, here: Order)
      requires here != Native && SectionSized(o.fields, o.wide, o.order)
      modifies this
      ensures fields == SectionConverted(old(o.fields), o.wide, wide, o.order, order, here)
    {
      hide Swizzle, Pow256;
      var h, a, cut := o.fields, AddressSize(o.wide), Pow256(AddressSize(wide));
      var f, t := o.order, order;
      LinkFits(h, o.wide, f);
      fields := fields.(name := Swizzle(h.name, 4, f, t, here));
      fields := fields.(sectionType := Swizzle(h.sectionType, 4, f, t, here));
      fields := fields.(flags := Swizzle(h.flags, a, f, t, here) % cut);
      fields := fields.(addr := Swizzle(h.addr, a, f, t, here) % cut);
      fields := fields.(offset := Swizzle(h.offset, a, f, t, here) % cut);
      fields := fields.(size := Swizzle(h.size, a, f, t, here) % cut);
      fields := fields.(link := Swizzle(h.link, 4, f, t, here) % Pow256(LinkSize(t)));
      fields := fields.(info := Swizzle(h.info, 4, f, t, here));
      fields := fields.(addralign := Swizzle(h.addralign, a, f, t, here) % cut);
      fields := fields.(entsize := Swizzle(h.entsize, a, f, t, here) % cut);
    }
  }

  // ---------- symbol info

  function Binding(info: Byte): nat {
    Shr(info, 4)
  }

  function SymbolType(info: Byte): nat {
    And(info, 0xF)
  }

  /** `info = (info & 0x0F) | (v << 4)`, cut to a byte. */
  function SetBinding(info: Byte, v: Byte): Byte {
    Or(And(info, 0x0F), Shl(v, 4)) % 0x100
  }

  /** `info = (info & 0xF0) | v`. */
  function SetType(info: Byte, v: Byte): nat {
    Or(And(info, 0xF0), v)
  }

  lemma NibblePowers()
    ensures Pow2(4) == 0x10 && Pow2(8) == 0x100
  {
  }

  lemma Nibbles(info: Byte)
    ensures Binding(info) == info / 0x10 && SymbolType(info) == info % 0x10
    ensures And(info, 0x0F) == info % 0x10 && And(info, 0xF0) == info - info % 0x10
  {
    NibblePowers();
    hide Pow2, And, Shr;
    AndMask(info, 4);
    AndHighMask(info, 4, 8);
    ShrIsQuotient(info, 4);
  }

  lemma BindingJoined(info: Byte, v: Byte)
    ensures SetBinding(info, v) == info % 0x10 + v % 0x10 * 0x10
  {
    hide *;
    NibblePowers();
    Nibbles(info);
    OrShifted(info % 0x10, v, 4);
    ShlIsProduct(v, 4);
    HighCut(info % 0x10, v);
    SetBindingIs(info, v);
  }

  lemma HighCut(low: nat, v: nat)
    requires low < 0x10
    ensures (low + v * 0x10) % 0x100 == low + v % 0x10 * 0x10
  {
    DivModUnique(low + v * 0x10, 0x100, v / 0x10, low + v % 0x10 * 0x10);
  }

  lemma SetBindingIs(info: Byte, v: Byte)
    ensures SetBinding(info, v) == Or(And(info, 0x0F), Shl(v, 4)) % 0x100
  {
    hide And, Or, Shl;
  }

  /** Setting one half of the info byte reads back, and leaves the other half alone. */
  lemma BindingSet(info: Byte, v: Byte)
    ensures Binding(info) == info / 0x10 && SetBinding(info, v) == v % 0x10 * 0x10 + info % 0x10
    ensures Binding(SetBinding(info, v)) == v % 0x10
    ensures SymbolType(SetBinding(info, v)) == SymbolType(info)
  {
    hide *;
    BindingJoined(info, v);
    Nibbles(info);
    Nibbles(SetBinding(info, v));
  }

  /** Setting the type keeps the binding only with a type of four bits: higher bits are ORed into
      the binding. */
  lemma TypeSet(info: Byte, v: Byte)
    ensures SetType(info, v) < 0x100 && SymbolType(info) == info % 0x10
    ensures SymbolType(SetType(info, v)) == v % 0x10
    ensures Binding(SetType(info, v)) == Or(Binding(info), Binding(v))
    ensures v < 0x10 ==> SymbolType(SetType(info, v)) == v && Binding(SetType(info, v)) == Binding(info)
  {
    hide *;
    TypeJoined(info, v);
    Nibbles(info);
    Nibbles(v);
    OrNibbles(info / 0x10, v / 0x10);
    Nibbles(SetType(info, v));
    OrNothing(info / 0x10);
  }

  lemma OrNothing(a: nat)
    ensures Or(a, 0) == a
  {
  }

  lemma OrNibbles(a: nat, b: nat)
    requires a < 0x10 && b < 0x10
    ensures Or(a, b) < 0x10
  {
    assert a / 2 / 2 / 2 / 2 == 0;
    assert Or(a / 2 / 2 / 2, b / 2 / 2 / 2) <= 1;
    assert Or(a / 2 / 2, b / 2 / 2) <= 3;
    assert Or(a / 2, b / 2) <= 7;
  }

  lemma OrDouble(a: nat, b: nat, c: nat)
    requires c < 2
    ensures Or(2 * a, 2 * b + c) == 2 * Or(a, b) + c
  {
    assert (2 * b + c) / 2 == b && (2 * b + c) % 2 == c && (2 * a) / 2 == a;
  }

  /** ORing four bits, and a number above them, into a number without its lowest digit. */
  lemma OrDigit(h: nat, a: nat, b3: nat, b2: nat, b1: nat, b0: nat)
    requires b3 < 2 && b2 < 2 && b1 < 2 && b0 < 2
    ensures Or(16 * h, 16 * a + 8 * b3 + 4 * b2 + 2 * b1 + b0) == 16 * Or(h, a) + 8 * b3 + 4 * b2 + 2 * b1 + b0
  {
    hide Or;
    var h1, h2, h3 := 2 * h, 4 * h, 8 * h;
    var a1, a2, a3 := 2 * a + b3, 4 * a + 2 * b3 + b2, 8 * a + 4 * b3 + 2 * b2 + b1;
    OrDouble(h, a, b3);
    assert Or(h1, a1) == 2 * Or(h, a) + b3;
    OrDouble(h1, a1, b2);
    assert Or(h2, a2) == 2 * Or(h1, a1) + b2;
    OrDouble(h2, a2, b1);
    assert Or(h3, a3) == 2 * Or(h2, a2) + b1;
    OrDouble(h3, a3, b0);
  }

  lemma Bits4(v: nat)
    ensures v == 16 * (v / 16) + 8 * (v / 8 % 2) + 4 * (v / 4 % 2) + 2 * (v / 2 % 2) + v % 2
    ensures v % 16 == 8 * (v / 8 % 2) + 4 * (v / 4 % 2) + 2 * (v / 2 % 2) + v % 2
  {
    HalfOfQuotient(v, 2);
    HalfOfQuotient(v, 4);
    HalfOfQuotient(v, 8);
  }

  lemma HalfOfQuotient(v: nat, p: nat)
    requires p == 2 || p == 4 || p == 8
    ensures v / p == 2 * (v / (2 * p)) + v / p % 2
  {
    var q := v / p;
    DivModUnique(v, 2 * p, q / 2, q % 2 * p + v % p);
  }

  lemma TypeJoined(info: Byte, v: Byte)
    ensures SetType(info, v) == Or(info / 0x10, v / 0x10) * 0x10 + v % 0x10
  {
    hide *;
    Nibbles(info);
    SetTypeIs(info, v);
    Bits4(v);
    OrDigit(info / 0x10, v / 0x10, v / 8 % 2, v / 4 % 2, v / 2 % 2, v % 2);
  }

  lemma SetTypeIs(info: Byte, v: Byte)
    ensures SetType(info, v) == Or(And(info, 0xF0), v)
  {
    hide And, Or;
  }
}
