/**
 * The sitemap index writer: one `sitemapindex` file, `index.xml`, with a
 * `<sitemap>` entry per recorded partition name, each entry's `<loc>` being
 * the configured base URL and the name, and its `<lastmod>` fixed when the
 * writer is created.
 */
module SitemapIndex {
  import opened Wrappers
  import opened Text
  import opened Seqs
  import opened Files

  const HEAD: string := "<?xml version=\"1.0\" encoding=\"UTF-8\"?>\n<sitemapindex xmlns=\"http://www.sitemaps.org/schemas/sitemap/0.9\">"
  const FOOT: string := "\n</sitemapindex>\n"

  /** The markup of the entry template around its two holes. */
  const ENTRY_OPEN: string := "\n    <sitemap>\n        <loc>"
  const ENTRY_MID: string := "</loc>\n        <lastmod>"
  const ENTRY_CLOSE: string := "</lastmod>\n    </sitemap>"

  /** The entry template, with a `%LOC%` and a `%LASTMOD%` hole. */
  function EntryTemplate(): (t: string)
    ensures t == ENTRY_OPEN + LOC_HOLE + ENTRY_MID + LASTMOD_HOLE + ENTRY_CLOSE
  {
    Template(ENTRY_OPEN, ENTRY_MID, ENTRY_CLOSE)
  }

  /** The URL an entry points at: the base URL, a slash and the partition's name, with no escaping. */
  function Loc(baseUrl: string, name: string): (loc: string)
    ensures |loc| == |baseUrl| + 1 + |name|
    ensures loc[..|baseUrl|] == baseUrl && loc[|baseUrl|] == '/' && loc[|baseUrl| + 1..] == name
  {
    baseUrl + "/" + name
  }

  /** An index entry for `loc`, written out piece by piece. */
  function Entry(lastmod: string, loc: string): string
  {
    ENTRY_OPEN + loc + ENTRY_MID + lastmod + ENTRY_CLOSE
  }

  /** The entries for `names`, in order: the reference the writer's output is compared with. */
  function Entries(lastmod: string, baseUrl: string, names: seq<string>): string
  {
    if names == [] then []
    else
      var n := |names| - 1;
      Entries(lastmod, baseUrl, names[..n]) + Entry(lastmod, Loc(baseUrl, names[n]))
  }

  /** One call made on the writer after its creation. */
  datatype IndexCall = Recorded(name: string) | Finished

  /** Recording each of `names` in turn. */
  function Records(names: seq<string>): (calls: seq<IndexCall>)
    ensures |calls| == |names|
    ensures forall i :: 0 <= i < |names| ==> calls[i] == Recorded(names[i])
  {
    seq(|names|, i requires 0 <= i < |names| => Recorded(names[i]))
  }

  /**
   * The text one call appends: the footer, or the template with the name's
   * URL in the `%LOC%` hole. When the template is the `<sitemap>` markup,
   * the hole and text without `%` after it, the URL lands in the hole and
   * the rest is kept.
   */
  function Piece(format: string, baseUrl: string, call: IndexCall): (p: string)
    ensures call.Finished? ==> p == FOOT
    ensures var n := |ENTRY_OPEN + LOC_HOLE|;
      call.Recorded? && n <= |format| && format[..n] == ENTRY_OPEN + LOC_HOLE && '%' !in format[n..] ==>
        p == ENTRY_OPEN + Loc(baseUrl, call.name) + format[n..]
  {
    match call
    case Recorded(name) =>
      var n := |ENTRY_OPEN + LOC_HOLE|;
      if n <= |format| && format[..n] == ENTRY_OPEN + LOC_HOLE && '%' !in format[n..] then
        assert '%' !in ENTRY_OPEN;
        assert format == ENTRY_OPEN + (LOC_HOLE + format[n..]);
        FillLoc(ENTRY_OPEN, format[n..], Loc(baseUrl, name));
        Replace(format, LOC_HOLE, Loc(baseUrl, name))
      else
        Replace(format, LOC_HOLE, Loc(baseUrl, name))
    case Finished => FOOT
  }

  /** The text appended after the header by `calls`, in order. */
  function Rendered(format: string, baseUrl: string, calls: seq<IndexCall>): string
  {
    if calls == [] then []
    else
      var n := |calls| - 1;
      Rendered(format, baseUrl, calls[..n]) + Piece(format, baseUrl, calls[n])
  }

  /** The directory after `calls`: `index.xml` holds its old text, the header and the rendered calls. */
  function IndexDirectory(origin: map<FileName, string>, format: string, baseUrl: string, calls: seq<IndexCall>): map<FileName, string>
  {
    origin[IndexFile := TextIn(origin, IndexFile) + HEAD + Rendered(format, baseUrl, calls)]
  }

  /** Appending the text of one more call to `index.xml` is making that call. */
  lemma IndexDirectoryStep(origin: map<FileName, string>, format: string, baseUrl: string, calls: seq<IndexCall>, call: IndexCall)
    ensures var d := IndexDirectory(origin, format, baseUrl, calls);
      d[IndexFile := TextIn(d, IndexFile) + Piece(format, baseUrl, call)]
        == IndexDirectory(origin, format, baseUrl, calls + [call])
  {
    assert (calls + [call])[..|calls|] == calls;
    var before := TextIn(origin, IndexFile) + HEAD;
    AppendAssoc(before, Rendered(format, baseUrl, calls), Piece(format, baseUrl, call));
  }

  /** The `%LASTMOD%`-filled template puts the name's URL and `lastmod` in their places. */
  lemma FilledEntry(lastmod: string, loc: string)
    requires '%' !in lastmod
    ensures Replace(Replace(EntryTemplate(), LASTMOD_HOLE, lastmod), LOC_HOLE, loc) == Entry(lastmod, loc)
  {
    assert '%' !in ENTRY_OPEN && '%' !in ENTRY_MID && '%' !in ENTRY_CLOSE;
    FillTemplate(ENTRY_OPEN, ENTRY_MID, ENTRY_CLOSE, lastmod, loc);
  }

  /** Recording `names` renders exactly the reference entries for them. */
  lemma {:induction false} RenderedRecords(lastmod: string, baseUrl: string, names: seq<string>)
    requires '%' !in lastmod
    ensures Rendered(Replace(EntryTemplate(), LASTMOD_HOLE, lastmod), baseUrl, Records(names))
            == Entries(lastmod, baseUrl, names)
  {
    if names != [] {
      var n := |names| - 1;
      assert Records(names)[..n] == Records(names[..n]);
      RenderedRecords(lastmod, baseUrl, names[..n]);
      FilledEntry(lastmod, Loc(baseUrl, names[n]));
    }
  }

  /** Distinct names give distinct entries: the recorded name can be read back from its entry. */
  lemma EntryInjective(lastmod: string, baseUrl: string, a: string, b: string)
    requires Entry(lastmod, Loc(baseUrl, a)) == Entry(lastmod, Loc(baseUrl, b))
    ensures a == b
  {
    var ea, eb := Entry(lastmod, Loc(baseUrl, a)), Entry(lastmod, Loc(baseUrl, b));
    var tail := ENTRY_MID + lastmod + ENTRY_CLOSE;
    assert ea == ENTRY_OPEN + Loc(baseUrl, a) + tail;
    assert eb == ENTRY_OPEN + Loc(baseUrl, b) + tail;
    assert |a| == |b|;
    var lo := |ENTRY_OPEN| + |baseUrl| + 1;
    assert ea[lo .. lo + |a|] == a;
    assert eb[lo .. lo + |b|] == b;
  }

  class Indexer {
    /** The entry template with `%LASTMOD%` already filled. */
    const format: string
    const baseUrl: string
    const disk: Disk

    /** The modification date the template was filled with. */
    ghost const lastmod: string
    /** Text of every file before the writer opened `index.xml`. */
    ghost const origin: map<FileName, string>
    /** Calls made since creation, in order. */
    ghost var calls: seq<IndexCall>

    ghost function Origin(): string
    {
      TextIn(origin, IndexFile)
    }

    /** The index file is its old text, the header, and what the calls so far appended; no other file changed. */
    ghost predicate Valid()
      reads this, disk
    {
      && format == Replace(EntryTemplate(), LASTMOD_HOLE, lastmod)
      && disk.texts == IndexDirectory(origin, format, baseUrl, calls)
    }

    constructor Init(format: string, baseUrl: string, disk: Disk, ghost lastmod: string, ghost origin: map<FileName, string>)
      requires format == Replace(EntryTemplate(), LASTMOD_HOLE, lastmod)
      requires disk.texts == origin[IndexFile := TextIn(origin, IndexFile) + HEAD]
      ensures Valid() && calls == []
      ensures this.format == format && this.baseUrl == baseUrl && this.disk == disk
      ensures this.lastmod == lastmod && this.origin == origin
    {
      this.format := format;
      this.baseUrl := baseUrl;
      this.disk := disk;
      this.lastmod := lastmod;
      this.origin := origin;
      calls := [];
      new;
      assert TextIn(origin, IndexFile) + HEAD + [] == TextIn(origin, IndexFile) + HEAD;
    }

    /**
     * Open `index.xml` for appending and write the header, then read the base
     * URL from the environment (`baseUrlVar`); when it is unset the header
     * stays written and no writer is returned.
     */
    static method New(lastmod: string, baseUrlVar: Option<string>, disk: Disk) returns (r: Option<Indexer>)
      modifies disk
      ensures disk.texts == old(disk.texts)[IndexFile := old(disk.Text(IndexFile)) + HEAD]
      ensures disk.documents == old(disk.documents)
      ensures r.None? <==> baseUrlVar.None?
      ensures r.Some? ==>
        && fresh(r.value) && r.value.Valid() && r.value.calls == []
        && r.value.disk == disk && r.value.baseUrl == baseUrlVar.value && r.value.lastmod == lastmod
        && r.value.origin == old(disk.texts)
    {
      ghost var origin := disk.texts;
      disk.Append(IndexFile, HEAD);
      var format := Replace(EntryTemplate(), LASTMOD_HOLE, lastmod);
      if baseUrlVar.None? {
        return None;
      }
      var ix := new Indexer.Init(format, baseUrlVar.value, disk, lastmod, origin);
      return Some(ix);
    }

    /** Append an entry whose `<loc>` is the base URL followed by `/name`. */
    method Write(name: string)
      requires Valid()
      modifies this, disk
      ensures Valid() && calls == old(calls) + [Recorded(name)]
      ensures disk.texts == old(disk.texts)[IndexFile := old(disk.Text(IndexFile)) + Replace(format, LOC_HOLE, Loc(baseUrl, name))]
      ensures '%' !in lastmod ==> disk.Text(IndexFile) == old(disk.Text(IndexFile)) + Entry(lastmod, Loc(baseUrl, name))
      ensures disk.documents == old(disk.documents)
    {
      var url := baseUrl + "/" + name;
      var xml := Replace(format, LOC_HOLE, url);
      disk.Append(IndexFile, xml);
      calls := calls + [Recorded(name)];
      assert disk.texts == IndexDirectory(origin, format, baseUrl, calls) by {
        IndexDirectoryStep(origin, format, baseUrl, old(calls), Recorded(name));
      }
      if '%' !in lastmod {
        assert xml == Entry(lastmod, Loc(baseUrl, name)) by {
          FilledEntry(lastmod, url);
        }
      }
    }

    /** Append the closing `</sitemapindex>`. */
    method Finish()
      requires Valid()
      modifies this, disk
      ensures Valid() && calls == old(calls) + [Finished]
      ensures disk.texts == old(disk.texts)[IndexFile := old(disk.Text(IndexFile)) + FOOT]
      ensures disk.documents == old(disk.documents)
    {
      IndexDirectoryStep(origin, format, baseUrl, calls, Finished);
      disk.Append(IndexFile, FOOT);
      calls := calls + [Finished];
    }

    /** Flushing only forces buffered bytes out: nothing changes. */
    method Flush()
      requires Valid()
      ensures Valid()
      ensures unchanged(this) && unchanged(disk)
    {
    }

    /**
     * Recording `names` and then finishing leaves a complete index: header,
     * one entry per name in order, footer.
     */
    lemma CompleteIndex(names: seq<string>)
      requires Valid() && calls == Records(names) + [Finished]
      requires '%' !in lastmod
      ensures disk.Text(IndexFile) == Origin() + HEAD + Entries(lastmod, baseUrl, names) + FOOT
    {
      var r := Rendered(format, baseUrl, calls);
      assert r == Entries(lastmod, baseUrl, names) + FOOT by {
        assert calls[..|calls| - 1] == Records(names);
        RenderedRecords(lastmod, baseUrl, names);
      }
      assert disk.Text(IndexFile) == Origin() + HEAD + r;
    }

    /** Only the index file is written. */
    lemma OnlyIndex(name: FileName)
      requires Valid() && name != IndexFile
      ensures disk.Text(name) == TextIn(origin, name)
    {
    }
  }
}
