/**
 * The sitemap partition writer: one `urlset` file open at a time, each
 * pre-rendered `<url>` fragment appended to it, and a rotation to the next
 * numbered file once the current one holds `max` entries. Nothing writes
 * the closing `</urlset>` to the partition that is open at the end.
 */
module Sitemap {
  import opened Seqs
  import opened Files

  const HEAD: string := "<?xml version=\"1.0\" encoding=\"UTF-8\"?>\n<urlset xmlns=\"http://www.sitemaps.org/schemas/sitemap/0.9\">"
  const FOOT: string := "\n</urlset>\n"

  /** Entries a closed partition holds: `max`, except that `max = 0` rotates after every entry. */
  function Capacity(max: nat): nat
  {
    if max == 0 then 1 else max
  }

  /**
   * The directory after a run that started from `origin` and has rotated
   * through the partitions `closed`: each of those is its old text, the
   * header, its entries and the footer.
   */
  function ClosedFiles(origin: map<FileName, string>, closed: seq<seq<string>>): map<FileName, string>
  {
    if closed == [] then origin
    else
      var n := |closed| - 1;
      ClosedFiles(origin, closed[..n])[SitemapFile(n) := TextIn(origin, SitemapFile(n)) + HEAD + Flatten(closed[n]) + FOOT]
  }

  /** As `ClosedFiles`, with partition `|closed|` open: its old text, the header and the entries of `current`. */
  function Directory(origin: map<FileName, string>, closed: seq<seq<string>>, current: seq<string>): map<FileName, string>
  {
    var n := |closed|;
    ClosedFiles(origin, closed)[SitemapFile(n) := TextIn(origin, SitemapFile(n)) + HEAD + Flatten(current)]
  }

  /** What `ClosedFiles` holds under each name: closed partitions as described, anything else as it was. */
  lemma {:induction false} ClosedFilesAt(origin: map<FileName, string>, closed: seq<seq<string>>, name: FileName)
    ensures TextIn(ClosedFiles(origin, closed), name)
            == if name.SitemapFile? && name.index < |closed|
               then TextIn(origin, name) + HEAD + Flatten(closed[name.index]) + FOOT
               else TextIn(origin, name)
  {
    if closed != [] {
      var n := |closed| - 1;
      ClosedFilesAt(origin, closed[..n], name);
    }
  }

  /**
   * What the directory holds under each name: partition `k < |closed|` is
   * closed with its entries, partition `|closed|` is open with `current`,
   * and every later partition and every other file is untouched.
   */
  lemma DirectoryAt(origin: map<FileName, string>, closed: seq<seq<string>>, current: seq<string>, name: FileName)
    ensures TextIn(Directory(origin, closed, current), name)
            == if name.SitemapFile? && name.index < |closed|
               then TextIn(origin, name) + HEAD + Flatten(closed[name.index]) + FOOT
               else if name == SitemapFile(|closed|)
               then TextIn(origin, name) + HEAD + Flatten(current)
               else TextIn(origin, name)
  {
    ClosedFilesAt(origin, closed, name);
  }

  /** Appending an entry to the open partition is adding it to `current`. */
  lemma DirectoryAppend(origin: map<FileName, string>, closed: seq<seq<string>>, current: seq<string>, src: string)
    ensures var d, f := Directory(origin, closed, current), SitemapFile(|closed|);
      d[f := TextIn(d, f) + src] == Directory(origin, closed, current + [src])
  {
    var f := SitemapFile(|closed|);
    var before := TextIn(origin, f) + HEAD;
    FlattenSnoc(current, src);
    AppendAssoc(before, Flatten(current), src);
    var c := ClosedFiles(origin, closed);
    assert c[f := before + Flatten(current)][f := before + Flatten(current) + src]
        == c[f := before + Flatten(current + [src])];
  }

  /**
   * Appending the footer to the open partition and the header to the next
   * one is closing `current` and opening an empty partition.
   */
  lemma DirectoryClose(origin: map<FileName, string>, closed: seq<seq<string>>, current: seq<string>)
    ensures var f, g := SitemapFile(|closed|), SitemapFile(|closed| + 1);
      var d := Directory(origin, closed, current);
      var d1 := d[f := TextIn(d, f) + FOOT];
      d1[g := TextIn(d1, g) + HEAD] == Directory(origin, closed + [current], [])
  {
    var f, g := SitemapFile(|closed|), SitemapFile(|closed| + 1);
    var c := ClosedFiles(origin, closed);
    var d := Directory(origin, closed, current);
    var d1 := d[f := TextIn(d, f) + FOOT];
    assert d1 == c[f := TextIn(origin, f) + HEAD + Flatten(current) + FOOT];
    assert ClosedFiles(origin, closed + [current]) == d1 by {
      assert (closed + [current])[..|closed|] == closed;
    }
    assert TextIn(d1, g) == TextIn(origin, g) by {
      ClosedFilesAt(origin, closed, g);
    }
    assert TextIn(origin, g) + HEAD + Flatten<char>([]) == TextIn(origin, g) + HEAD by {
      assert Flatten<char>([]) == [];
    }
  }

  class Generator {
    var fileIdx: nat
    var file: FileName
    var idx: nat
    const max: nat
    const disk: Disk

    /** Text of every file when the generator was created. */
    ghost const origin: map<FileName, string>
    /** Entries of each partition already rotated away from, in order. */
    ghost var closed: seq<seq<string>>
    /** Entries of the open partition, in order. */
    ghost var current: seq<string>

    ghost function Origin(name: FileName): string
    {
      TextIn(origin, name)
    }

    /** Every fragment passed to `Write`, in call order. */
    ghost function Written(): seq<string>
      reads this
    {
      Flatten(closed) + current
    }

    /** The counters and the files agree with the entries written so far. */
    ghost predicate Consistent()
      reads this, disk
    {
      && file == SitemapFile(fileIdx)
      && fileIdx == |closed|
      && idx == |current| <= Capacity(max)
      && (forall k :: 0 <= k < |closed| ==> |closed[k]| == Capacity(max))
      && disk.texts == Directory(origin, closed, current)
    }

    /** The state between calls: consistent, and the open partition is not yet full. */
    ghost predicate Valid()
      reads this, disk
    {
      Consistent() && idx < Capacity(max)
    }

    /** Open `name` for appending, creating it if needed, and write the XML header after its content. */
    static method NewFile(disk: Disk, name: FileName)
      modifies disk
      ensures disk.texts == old(disk.texts)[name := old(disk.Text(name)) + HEAD]
      ensures disk.documents == old(disk.documents)
    {
      disk.Append(name, HEAD);
    }

    constructor (max: nat, disk: Disk)
      modifies disk
      ensures Valid()
      ensures this.max == max && this.disk == disk && origin == old(disk.texts)
      ensures fileIdx == 0 && idx == 0 && file == SitemapFile(0) && Written() == []
      ensures disk.texts == old(disk.texts)[SitemapFile(0) := old(disk.Text(SitemapFile(0))) + HEAD]
      ensures disk.documents == old(disk.documents)
    {
      origin := disk.texts;
      NewFile(disk, SitemapFile(0));
      this.fileIdx := 0;
      this.file := SitemapFile(0);
      this.idx := 0;
      this.max := max;
      this.disk := disk;
      closed := [];
      current := [];
      new;
      assert Flatten(current) == [];
      assert TextIn(origin, file) + HEAD + Flatten(current) == TextIn(origin, file) + HEAD;
    }

    /** Append `src` to the open partition; once it holds `max` entries, close it and open the next. */
    method Write(src: string)
      requires Valid()
      modifies this, disk
      ensures Valid()
      ensures Written() == old(Written()) + [src]
      ensures old(idx) + 1 < max ==>
        && fileIdx == old(fileIdx) && file == old(file) && idx == old(idx) + 1
        && disk.texts == old(disk.texts)[file := old(disk.Text(file)) + src]
      ensures old(idx) + 1 >= max ==>
        && fileIdx == old(fileIdx) + 1 && file == SitemapFile(fileIdx) && idx == 0
        && var t1 := old(disk.texts)[old(file) := old(disk.Text(file)) + src];
           var t2 := t1[old(file) := TextIn(t1, old(file)) + FOOT];
           disk.texts == t2[file := TextIn(t2, file) + HEAD]
      ensures disk.documents == old(disk.documents)
    {
      DirectoryAppend(origin, closed, current, src);
      AppendAssoc(Flatten(closed), current, [src]);
      disk.Append(file, src);
      idx := idx + 1;
      current := current + [src];
      if idx >= max {
        Rotate();
      }
    }

    /** Close the full open partition with the footer and open the next one with the header. */
    method Rotate()
      requires Consistent() && idx == Capacity(max)
      modifies this, disk
      ensures Valid()
      ensures Written() == old(Written())
      ensures fileIdx == old(fileIdx) + 1 && file == SitemapFile(fileIdx) && idx == 0
      ensures var t := old(disk.texts)[old(file) := old(disk.Text(file)) + FOOT];
        disk.texts == t[file := TextIn(t, file) + HEAD]
      ensures disk.documents == old(disk.documents)
    {
      ghost var before, full := closed, current;
      disk.Append(file, FOOT);
      fileIdx := fileIdx + 1;
      file := SitemapFile(fileIdx);
      NewFile(disk, file);
      closed := before + [full];
      current := [];
      idx := 0;
      assert disk.texts == Directory(origin, closed, current) by {
        DirectoryClose(origin, before, full);
      }
      assert Written() == old(Written()) by {
        FlattenSnoc(before, full);
        assert Flatten(closed) + [] == Flatten(before) + full;
      }
      assert forall k :: 0 <= k < |closed| ==> |closed[k]| == Capacity(max) by {
        forall k | 0 <= k < |closed| ensures |closed[k]| == Capacity(max) {
          if k < |before| {
            assert closed[k] == before[k];
          }
        }
      }
    }

    /** Flushing only forces buffered bytes out: no counter and no file changes. */
    method Flush()
      requires Valid()
      ensures Valid()
      ensures unchanged(this) && unchanged(disk)
    {
    }

    /** After `n` writes the counters are `n / max` and `n % max` (with the rotation-per-write reading of `max = 0`). */
    lemma Counters()
      requires Valid()
      ensures fileIdx == |Written()| / Capacity(max)
      ensures idx == |Written()| % Capacity(max)
    {
      FlattenLength(closed, Capacity(max));
      DivModOf(|Written()|, fileIdx, idx, Capacity(max));
    }

    /** Partition `k` already rotated away from: header, exactly `max` entries in write order, footer. */
    lemma ClosedPartition(k: nat)
      requires Valid() && k < fileIdx
      ensures (k + 1) * Capacity(max) <= |Written()|
      ensures disk.Text(SitemapFile(k))
                == Origin(SitemapFile(k)) + HEAD
                   + Flatten(Written()[k * Capacity(max) .. (k + 1) * Capacity(max)]) + FOOT
    {
      assert disk.Text(SitemapFile(k)) == Origin(SitemapFile(k)) + HEAD + Flatten(closed[k]) + FOOT by {
        DirectoryAt(origin, closed, current, SitemapFile(k));
      }
      FlattenPart(closed, Capacity(max), |closed|, k, current);
    }

    /** The open partition: header and the last `idx` entries, with no footer. */
    lemma OpenPartition()
      requires Valid()
      ensures fileIdx * Capacity(max) + idx == |Written()|
      ensures disk.Text(file) == Origin(file) + HEAD + Flatten(Written()[fileIdx * Capacity(max) ..])
    {
      DirectoryAt(origin, closed, current, file);
      FlattenLength(closed, Capacity(max));
      assert Written()[fileIdx * Capacity(max) ..] == current;
    }

    /** Partitions after the open one, and every other file, keep the text they had at creation. */
    lemma Untouched(name: FileName)
      requires Valid()
      requires name.SitemapFile? ==> name.index > fileIdx
      ensures disk.Text(name) == Origin(name)
    {
      DirectoryAt(origin, closed, current, name);
    }

    /** When the write count is a multiple of `max`, the open partition holds only the header. */
    lemma HeaderOnlyAtMultiple()
      requires Valid()
      requires |Written()| % Capacity(max) == 0
      ensures idx == 0
      ensures disk.Text(file) == Origin(file) + HEAD
    {
      Counters();
      DirectoryAt(origin, closed, current, file);
      assert Flatten(current) == [];
    }

    /** With `max = 0` every write rotates, so partition `k` holds exactly the `k`-th entry. */
    lemma RotateEveryWrite(k: nat)
      requires Valid() && max == 0
      requires k < |Written()|
      ensures fileIdx == |Written()| && idx == 0
      ensures disk.Text(SitemapFile(k)) == Origin(SitemapFile(k)) + HEAD + Written()[k] + FOOT
    {
      assert Capacity(max) == 1;
      Counters();
      ClosedPartition(k);
      assert Written()[k .. k + 1] == [Written()[k]];
      FlattenSingle(Written()[k]);
    }
  }
}
