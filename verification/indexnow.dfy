/**
 * The IndexNow batch accumulator: URLs are buffered in arrival order, and
 * whenever a push leaves more than `max` of them buffered the whole buffer
 * is emitted as the next numbered batch file. `finish` emits what remains
 * under the current number.
 */
module IndexNow {
  import opened Wrappers
  import opened Seqs
  import opened IndexNowModel
  import opened Files

  /** The batch files after emitting `batches` from a directory that held `origin`: batch `k` is file `k`. */
  function Emitted(origin: map<FileName, Request>, host: string, key: string, keyLocation: string,
                   batches: seq<seq<string>>): map<FileName, Request>
  {
    if batches == [] then origin
    else
      var n := |batches| - 1;
      Emitted(origin, host, key, keyLocation, batches[..n])[BatchFile(n) := Request(host, key, keyLocation, batches[n])]
  }

  /** What `Emitted` holds under each name: the emitted batches as requests, every other file as it was. */
  lemma {:induction false} EmittedAt(origin: map<FileName, Request>, host: string, key: string, keyLocation: string,
                                     batches: seq<seq<string>>, name: FileName)
    ensures name.BatchFile? && name.index < |batches| ==>
      && name in Emitted(origin, host, key, keyLocation, batches)
      && Emitted(origin, host, key, keyLocation, batches)[name] == Request(host, key, keyLocation, batches[name.index])
    ensures !(name.BatchFile? && name.index < |batches|) ==>
      && (name in Emitted(origin, host, key, keyLocation, batches) <==> name in origin)
      && (name in origin ==> Emitted(origin, host, key, keyLocation, batches)[name] == origin[name])
  {
    if batches != [] {
      var n := |batches| - 1;
      EmittedAt(origin, host, key, keyLocation, batches[..n], name);
    }
  }

  /** Emitting one more batch stores it under the next number. */
  lemma EmittedSnoc(origin: map<FileName, Request>, host: string, key: string, keyLocation: string,
                    batches: seq<seq<string>>, batch: seq<string>)
    ensures Emitted(origin, host, key, keyLocation, batches + [batch])
            == Emitted(origin, host, key, keyLocation, batches)[BatchFile(|batches|) := Request(host, key, keyLocation, batch)]
  {
    assert (batches + [batch])[..|batches|] == batches;
  }

  /** The URL lists of batch files `0 .. n-1`, concatenated in file-number order; a missing file contributes nothing. */
  function UrlLists(documents: map<FileName, Request>, n: nat): seq<string>
  {
    if n == 0 then []
    else UrlLists(documents, n - 1) + (if BatchFile(n - 1) in documents then documents[BatchFile(n - 1)].urlList else [])
  }

  /** Reading the emitted batch files back in order gives the URLs of all the batches, in order. */
  lemma {:induction false} EmittedUrls(origin: map<FileName, Request>, host: string, key: string, keyLocation: string,
                                       batches: seq<seq<string>>, n: nat)
    requires n <= |batches|
    ensures UrlLists(Emitted(origin, host, key, keyLocation, batches), n) == Flatten(batches[..n])
  {
    if n > 0 {
      EmittedUrls(origin, host, key, keyLocation, batches, n - 1);
      EmittedAt(origin, host, key, keyLocation, batches, BatchFile(n - 1));
      assert batches[..n] == batches[..n - 1] + [batches[n - 1]];
      FlattenSnoc(batches[..n - 1], batches[n - 1]);
    }
  }

  class RequestGenerator {
    var fileIdx: nat
    var idx: nat
    const max: nat
    const host: string
    const key: string
    const keyLocation: string
    var buffer: seq<string>
    const disk: Disk

    /** Batch files in the directory when the generator was created. */
    ghost const origin: map<FileName, Request>
    /** URL lists of the batch files written so far, in file-number order. */
    ghost var batches: seq<seq<string>>

    /** Every URL passed to `Push`, in call order. */
    ghost function Pushed(): seq<string>
      reads this
    {
      Flatten(batches) + buffer
    }

    /** The batch files on disk are exactly the batches written, each as a request with this generator's host and key. */
    ghost predicate Stored()
      reads this, disk
    {
      && fileIdx <= |batches|
      && (forall k :: 0 <= k < fileIdx ==> |batches[k]| == max + 1)
      && disk.documents == Emitted(origin, host, key, keyLocation, batches)
    }

    /** Between pushes: every batch written is full, and the buffer holds `idx <= max` URLs not yet written. */
    ghost predicate Valid()
      reads this, disk
    {
      Stored() && fileIdx == |batches| && idx == |buffer| <= max
    }

    /** After `finish`: the remainder is written as batch `fileIdx`, and the buffer is empty. */
    ghost predicate Finished()
      reads this, disk
    {
      Stored() && |batches| == fileIdx + 1 && buffer == [] && |batches[fileIdx]| == idx <= max
    }

    constructor (max: nat, host: string, key: string, keyLocation: string, disk: Disk)
      ensures Valid()
      ensures fileIdx == 0 && idx == 0 && buffer == [] && Pushed() == []
      ensures this.max == max && this.host == host && this.key == key && this.keyLocation == keyLocation
      ensures this.disk == disk && origin == disk.documents
    {
      fileIdx := 0;
      idx := 0;
      this.max := max;
      this.host := host;
      this.key := key;
      this.keyLocation := keyLocation;
      buffer := [];
      this.disk := disk;
      origin := disk.documents;
      batches := [];
    }

    /** Take the buffer, leaving it empty, and write it as batch file `fileIdx`, replacing any file of that name. */
    method WriteBatch()
      requires Stored() && fileIdx == |batches|
      modifies this, disk
      ensures buffer == [] && batches == old(batches) + [old(buffer)]
      ensures fileIdx == old(fileIdx) && idx == old(idx)
      ensures disk.documents == old(disk.documents)[BatchFile(fileIdx) := Request(host, key, keyLocation, old(buffer))]
      ensures disk.texts == old(disk.texts)
      ensures Stored() && Pushed() == old(Pushed())
    {
      var buff := buffer;
      buffer := [];
      var req := Request(host, key, keyLocation, buff);
      EmittedSnoc(origin, host, key, keyLocation, batches, buff);
      disk.Store(BatchFile(fileIdx), req);
      FlattenSnoc(batches, buff);
      batches := batches + [buff];
      assert Pushed() == Flatten(batches) + [];
    }

    /** Buffer `src`; if more than `max` URLs are then buffered, write them all as the next batch. */
    method Push(src: string)
      requires Valid()
      modifies this, disk
      ensures Valid()
      ensures Pushed() == old(Pushed()) + [src]
      ensures old(idx) + 1 <= max ==>
        && buffer == old(buffer) + [src] && idx == old(idx) + 1 && fileIdx == old(fileIdx)
        && disk.documents == old(disk.documents)
      ensures old(idx) + 1 > max ==>
        && buffer == [] && idx == 0 && fileIdx == old(fileIdx) + 1
        && disk.documents == old(disk.documents)[BatchFile(old(fileIdx)) := Request(host, key, keyLocation, old(buffer) + [src])]
      ensures disk.texts == old(disk.texts)
    {
      AppendAssoc(Flatten(batches), buffer, [src]);
      buffer := buffer + [src];
      idx := idx + 1;
      if idx > max {
        WriteBatch();
        fileIdx := fileIdx + 1;
        idx := 0;
      }
    }

    /** Write the buffered remainder, possibly empty, as batch file `fileIdx`, without advancing `fileIdx`. */
    method Finish()
      requires Valid()
      modifies this, disk
      ensures Finished()
      ensures Pushed() == old(Pushed())
      ensures buffer == [] && idx == old(idx) && fileIdx == old(fileIdx)
      ensures disk.documents == old(disk.documents)[BatchFile(fileIdx) := Request(host, key, keyLocation, old(buffer))]
      ensures disk.texts == old(disk.texts)
    {
      WriteBatch();
    }

    /** Batch `k < fileIdx` holds the `k`-th run of `max + 1` pushed URLs, under this generator's host and key. */
    lemma FullBatch(k: nat)
      requires Stored() && k < fileIdx
      ensures (k + 1) * (max + 1) <= |Pushed()|
      ensures disk.Document(BatchFile(k))
              == Some(Request(host, key, keyLocation, Pushed()[k * (max + 1) .. (k + 1) * (max + 1)]))
    {
      EmittedAt(origin, host, key, keyLocation, batches, BatchFile(k));
      FlattenPart(batches, max + 1, fileIdx, k, buffer);
    }

    /** Mid-run nothing is lost: the written batches in file order, then the buffer, are the pushed URLs. */
    lemma NothingLost()
      requires Valid()
      ensures UrlLists(disk.documents, fileIdx) + buffer == Pushed()
    {
      EmittedUrls(origin, host, key, keyLocation, batches, fileIdx);
      assert batches[..fileIdx] == batches;
    }

    /** After `finish`, the batch files `0 ..= fileIdx` read in order give exactly the pushed URLs. */
    lemma BatchesInOrder()
      requires Finished()
      ensures UrlLists(disk.documents, fileIdx + 1) == Pushed()
    {
      EmittedUrls(origin, host, key, keyLocation, batches, fileIdx + 1);
      assert batches[..fileIdx + 1] == batches;
      assert Pushed() == Flatten(batches) + [];
    }

    /** Between pushes, `idx` counts the buffered URLs and is `|Pushed()| mod (max + 1)`. */
    lemma Counters()
      requires Valid()
      ensures idx == |buffer| <= max
      ensures fileIdx == |Pushed()| / (max + 1) && idx == |Pushed()| % (max + 1)
    {
      FlattenLength(batches, max + 1);
      DivModOf(|Pushed()|, fileIdx, idx, max + 1);
    }
  }
}
