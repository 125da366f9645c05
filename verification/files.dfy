/**
 * The working directory the writers produce their files in. Sitemap and
 * index files are opened with create-and-append and written whole strings
 * at a time; a batch file is written in one go, replacing any earlier file
 * of that name, and is kept as the request it serializes.
 */
module Files {
  import opened Wrappers
  import opened IndexNowModel

  /** File names, built from a prefix and an index: `sitemap{n}.xml`, `index.xml`, `indexnow{n}.json`. */
  datatype FileName = SitemapFile(index: nat) | IndexFile | BatchFile(index: nat)

  /** The text of `name` in a directory listing; a missing file reads as empty. */
  function TextIn(texts: map<FileName, string>, name: FileName): string
  {
    if name in texts then texts[name] else ""
  }

  class Disk {
    /** Text files, by name; a name absent from the map is a file that does not exist. */
    var texts: map<FileName, string>
    /** Batch files, by name, as the request each one serializes. */
    var documents: map<FileName, Request>

    constructor (texts: map<FileName, string>, documents: map<FileName, Request>)
      ensures this.texts == texts && this.documents == documents
    {
      this.texts := texts;
      this.documents := documents;
    }

    /** The current content of a text file; a missing file reads as empty. */
    function Text(name: FileName): string
      reads this
    {
      TextIn(texts, name)
    }

    /** The batch stored under `name`, if that file exists. */
    function Document(name: FileName): Option<Request>
      reads this
    {
      if name in documents then Some(documents[name]) else None
    }

    /** Open `name` for appending (creating it when missing) and write all of `s` after its content. */
    method Append(name: FileName, s: string)
      modifies this
      ensures texts == old(texts)[name := old(Text(name)) + s]
      ensures documents == old(documents)
    {
      texts := texts[name := Text(name) + s];
    }

    /** Create or truncate `name` and store `r` as its whole content. */
    method Store(name: FileName, r: Request)
      modifies this
      ensures documents == old(documents)[name := r]
      ensures texts == old(texts)
    {
      documents := documents[name := r];
    }
  }
}
