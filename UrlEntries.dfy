/** One URL's sitemap metadata (`UrlEntry`). */
module UrlEntries {

  datatype ChangeFrequency = Always | Hourly | Daily | Weekly | Monthly | Yearly | Never

  /**
   * `URL` is the absolute address and the entry's identity (compared exactly, case-sensitively);
   * `lastModification` is a `DateTime` as ticks (0 is `default(DateTime)`);
   * `written` says the entry came from a file already on disk.
   */
  datatype UrlEntry = UrlEntry(
    url: string,
    category: string,
    changeFrequency: ChangeFrequency,
    lastModification: nat,
    written: bool)

  /** The entry `AddUrlEntry` builds: `Written` keeps its default, false. */
  function NewEntry(url: string, category: string, changeFrequency: ChangeFrequency, lastModification: nat): UrlEntry
  {
    UrlEntry(url, category, changeFrequency, lastModification, false)
  }

  /** The entry the loader builds from a `<url>` element: written, with no last-modification time of its own. */
  function LoadedEntry(url: string, category: string, changeFrequency: ChangeFrequency): UrlEntry
  {
    UrlEntry(url, category, changeFrequency, 0, true)
  }
}
