/** One sitemap file of the store (`SitemapFile`): its identity, its dirty flag and its entries. */
module SitemapFiles {
  import opened Strings
  import opened UrlEntries

  /** The value a `SitemapFile` holds at one moment. */
  datatype Bucket = Bucket(
    filename: string,
    category: string,
    number: Int32,
    needReWrite: bool,
    entries: seq<UrlEntry>)

  /**
   * The mutable record the generator keeps per file. `filename` and `category` start
   * empty (null in the source) and are set by whoever creates the file; `entries` is
   * the ordered list the source spells `Entires`.
   */
  class SitemapFile {
    var filename: string
    var category: string
    var number: Int32
    var needReWrite: bool
    var entries: seq<UrlEntry>

    constructor ()
      ensures entries == [] && !needReWrite && number == 0
      ensures filename == "" && category == ""
    {
      filename := "";
      category := "";
      number := 0;
      needReWrite := false;
      entries := [];
    }

    /** `new SitemapFile() { Filename = .., Category = .., Number = .., NeedReWrite = .. }`: no entries yet. */
    constructor Initialized(filename: string, category: string, number: Int32, needReWrite: bool)
      ensures Value() == Bucket(filename, category, number, needReWrite, [])
    {
      this.filename := filename;
      this.category := category;
      this.number := number;
      this.needReWrite := needReWrite;
      entries := [];
    }

    /** `Entires.Add`: appends one entry; nothing else changes. */
    method AddEntry(e: UrlEntry)
      modifies this
      ensures Value() == old(Value()).(entries := old(entries) + [e])
    {
      entries := entries + [e];
    }

    /** The value the file holds now. */
    function Value(): Bucket
      reads this
    {
      Bucket(filename, category, number, needReWrite, entries)
    }
  }
}
