/**
 * The Master Batcher node: it reads a list of folder paths, one per line,
 * keeps the image files of each folder, sorts them, and cuts every folder's
 * list into consecutive batches of at most `batch_size` files. A single
 * running batch index then walks through all batches of all folders.
 *
 * The file system is an input: a listing maps each directory path to its
 * entries, and a path that is not a key is not a directory.
 */
module MasterBatcher {
  import opened Text
  import opened PathSanitizer
  import opened Wrappers

  /** `IMAGE_EXTENSIONS`. */
  const ImageExtensions: set<string> := {".png", ".jpg", ".jpeg", ".bmp", ".tiff", ".tif", ".webp"}

  /** One name returned by `os.listdir`, with the answer `os.path.isfile` gives for it. */
  datatype Entry = Entry(name: string, isFile: bool)

  /** Directory path to its entries; a path that is not a key is not a directory. */
  type Listing = map<string, seq<Entry>>

  /** The sort orders the model distinguishes. The time-stamp and random
      orders of the node are folded into `ListingOrder`. */
  datatype SortMethod = Alphabetical | AlphabeticalReverse | ListingOrder

  /** One element of the batch map: a folder and the file names of one batch. */
  datatype Descriptor = Descriptor(folder: string, files: seq<string>)

  /** The `batch_info` the node reports to the user interface. */
  datatype BatchInfo = BatchInfo(batchCount: nat, folderPath: string, totalBatches: nat, batchIndex: nat)

  /** The node's result tuple without the image and mask tensors. */
  datatype LoadResult = LoadResult(info: BatchInfo, batchCount: nat, folderPath: string, totalBatches: nat)

  /** One folder of the summary the "Calculate Batches" endpoint returns. */
  datatype FolderSummary = FolderSummary(folder: string, fileCount: nat, batchCount: nat)

  function Min(a: int, b: int): int {
    if a <= b then a else b
  }

  /** The `sort_method` names `get_image_files` dispatches on; every other
      name keeps the listing order. */
  function ParseSortMethod(s: string): (m: SortMethod)
    ensures m == Alphabetical <==> s == "alphabetical"
    ensures m == AlphabeticalReverse <==> s == "alphabetical_reverse"
  {
    if s == "alphabetical" then Alphabetical
    else if s == "alphabetical_reverse" then AlphabeticalReverse
    else ListingOrder
  }

  // ---------------------------------------------------------------------------
  // File extensions
  // ---------------------------------------------------------------------------

  /** Index of the last '.' in `s`, if any. */
  function LastDot(s: string): (r: Option<nat>)
    ensures r.Some? ==> r.value < |s| && s[r.value] == '.' && '.' !in s[r.value + 1..]
    ensures r.None? ==> '.' !in s
  {
    if |s| == 0 then None
    else if s[|s| - 1] == '.' then Some(|s| - 1)
    else
      var r := LastDot(s[..|s| - 1]);
      assert s == s[..|s| - 1] + [s[|s| - 1]];
      if r.Some? then
        assert s[r.value + 1..] == s[..|s| - 1][r.value + 1..] + [s[|s| - 1]];
        r
      else r
  }

  /** True when some character of `s` before index `n` is not a dot. */
  predicate HasNonDotBefore(s: string, n: nat)
    requires n <= |s|
  {
    exists j :: 0 <= j < n && s[j] != '.'
  }

  /** `os.path.splitext(name)[1]` for a name without path separators: the
      text from the last dot on, unless only dots precede that dot. */
  function Extension(name: string): (ext: string)
    ensures ext == [] || (ext[0] == '.' && '.' !in ext[1..])
    ensures |ext| <= |name| && ext == name[|name| - |ext|..]
    ensures ext != [] ==> HasNonDotBefore(name, |name| - |ext|)
  {
    match LastDot(name)
    case None => []
    case Some(d) => if HasNonDotBefore(name, d) then name[d..] else []
  }

  /** Splitting off an extension and putting it back is the identity: the
      extension of a stem with a non-dot character followed by a dot-free
      suffix that starts with a dot is that suffix. */
  lemma ExtensionOfStemAndSuffix(stem: string, ext: string)
    requires exists j :: 0 <= j < |stem| && stem[j] != '.'
    requires |ext| >= 1 && ext[0] == '.' && '.' !in ext[1..]
    ensures Extension(stem + ext) == ext
  {
    var name := stem + ext;
    var d := LastDot(name);
    assert name[|stem|] == '.';
    assert d.Some? by {
      assert name[|stem|] in name;
    }
    var k := d.value;
    var j :| 0 <= j < |stem| && stem[j] != '.';
    assert name[j] == stem[j];
    assert name[k..] == ext;
  }

  /** A name without any dot has no extension. */
  lemma ExtensionWithoutDot(name: string)
    requires '.' !in name
    ensures Extension(name) == []
  {
  }

  /** The filter in `get_image_files`: a regular file whose lower-cased extension is listed. */
  predicate IsImage(e: Entry) {
    e.isFile && Lower(Extension(e.name)) in ImageExtensions
  }

  function KeptName(e: Entry, keep: Entry -> bool): seq<string> {
    if keep(e) then [e.name] else []
  }

  /** The names of the entries `keep` accepts, in listing order. */
  function KeptNames(entries: seq<Entry>, keep: Entry -> bool): (names: seq<string>)
    ensures |names| <= |entries|
  {
    if |entries| == 0 then [] else KeptName(entries[0], keep) + KeptNames(entries[1..], keep)
  }

  /** A name is kept exactly when some accepted entry carries it. */
  lemma {:induction false} KeptNamesMembers(entries: seq<Entry>, keep: Entry -> bool, name: string)
    ensures name in KeptNames(entries, keep) <==> exists e :: e in entries && keep(e) && e.name == name
  {
    if |entries| > 0 {
      KeptNamesMembers(entries[1..], keep, name);
      assert entries == [entries[0]] + entries[1..];
      if exists e :: e in entries && keep(e) && e.name == name {
        var e :| e in entries && keep(e) && e.name == name;
        if e != entries[0] {
          assert e in entries[1..];
        }
      }
    }
  }

  /** The filter keeps listing order: filtering a concatenation filters each side. */
  lemma {:induction false} KeptNamesAppend(a: seq<Entry>, b: seq<Entry>, keep: Entry -> bool)
    ensures KeptNames(a + b, keep) == KeptNames(a, keep) + KeptNames(b, keep)
  {
    if |a| == 0 {
      assert a + b == b;
    } else {
      KeptNamesAppend(a[1..], b, keep);
      KeptNamesAppendStep(a[0], a[1..], b, keep);
      assert a == [a[0]] + a[1..];
    }
  }

  lemma KeptNamesAppendStep(e: Entry, x: seq<Entry>, b: seq<Entry>, keep: Entry -> bool)
    requires KeptNames(x + b, keep) == KeptNames(x, keep) + KeptNames(b, keep)
    ensures KeptNames([e] + x + b, keep) == KeptNames([e] + x, keep) + KeptNames(b, keep)
  {
    ConsAppend(e, x, b);
    KeptNamesCons(e, x + b, keep);
    KeptNamesCons(e, x, keep);
    AppendAssoc(KeptName(e, keep), KeptNames(x, keep), KeptNames(b, keep));
  }

  lemma KeptNamesCons(e: Entry, rest: seq<Entry>, keep: Entry -> bool)
    ensures KeptNames([e] + rest, keep) == KeptName(e, keep) + KeptNames(rest, keep)
  {
    HeadOfAppend([e], rest);
  }

  /** The image files of a listing, in listing order (the loop in `get_image_files`). */
  function ImageNames(entries: seq<Entry>): seq<string> {
    KeptNames(entries, IsImage)
  }

  /** A name is listed exactly when it is the name of an image entry. */
  lemma ImageNamesMembers(entries: seq<Entry>, name: string)
    ensures name in ImageNames(entries) <==> exists e :: e in entries && IsImage(e) && e.name == name
  {
    KeptNamesMembers(entries, IsImage, name);
  }

  // ---------------------------------------------------------------------------
  // Sorting by lower-cased name
  // ---------------------------------------------------------------------------

  /** `a` may precede `b` when sorting by `f.lower()`, ascending or with `reverse=True`. */
  predicate KeyLe(a: string, b: string, descending: bool) {
    if descending then LexLe(Lower(b), Lower(a)) else LexLe(Lower(a), Lower(b))
  }

  lemma KeyLeTotal(a: string, b: string, descending: bool)
    ensures KeyLe(a, b, descending) || KeyLe(b, a, descending)
  {
    LexLeTotal(Lower(a), Lower(b));
  }

  predicate SortedBy(s: seq<string>, descending: bool) {
    forall i, j :: 0 <= i < j < |s| ==> KeyLe(s[i], s[j], descending)
  }

  /** Inserts `x` in front of the first element it may precede, which
      keeps equal keys in their original order. */
  function Insert(x: string, s: seq<string>, descending: bool): (r: seq<string>)
    ensures multiset(r) == multiset(s) + multiset{x}
  {
    if |s| == 0 then [x]
    else if KeyLe(x, s[0], descending) then [x] + s
    else
      assert s == [s[0]] + s[1..];
      [s[0]] + Insert(x, s[1..], descending)
  }

  /** An element that may precede the head of a sorted list may precede all of it. */
  lemma PrependSorted(x: string, s: seq<string>, descending: bool)
    requires SortedBy(s, descending) && |s| > 0 && KeyLe(x, s[0], descending)
    ensures SortedBy([x] + s, descending)
  {
    forall j | 0 < j < |s| ensures KeyLe(x, s[j], descending) {
      if descending {
        LexLeTransitive(Lower(s[j]), Lower(s[0]), Lower(x));
      } else {
        LexLeTransitive(Lower(x), Lower(s[0]), Lower(s[j]));
      }
    }
    ConsSorted(x, s, descending);
  }

  /** A sorted list stays sorted under a head that may precede every element. */
  lemma ConsSorted(x: string, s: seq<string>, descending: bool)
    requires SortedBy(s, descending)
    requires forall j :: 0 <= j < |s| ==> KeyLe(x, s[j], descending)
    ensures SortedBy([x] + s, descending)
  {
    var r := [x] + s;
    forall i, j | 0 <= i < j < |r| ensures KeyLe(r[i], r[j], descending) {
      assert r[j] == s[j - 1];
      if i > 0 {
        assert r[i] == s[i - 1];
      }
    }
  }

  /** Inserting into a sorted list keeps it sorted. */
  lemma {:induction false} InsertSorted(x: string, s: seq<string>, descending: bool)
    requires SortedBy(s, descending)
    ensures SortedBy(Insert(x, s, descending), descending)
  {
    if |s| == 0 {
    } else if KeyLe(x, s[0], descending) {
      PrependSorted(x, s, descending);
    } else {
      var rest := Insert(x, s[1..], descending);
      assert SortedBy(s[1..], descending);
      InsertSorted(x, s[1..], descending);
      KeyLeTotal(x, s[0], descending);
      forall j | 0 <= j < |rest| ensures KeyLe(s[0], rest[j], descending) {
        assert rest[j] in multiset(rest);
        if rest[j] != x {
          assert rest[j] in multiset(s[1..]);
          var m :| 0 <= m < |s[1..]| && s[1..][m] == rest[j];
          assert s[m + 1] == rest[j];
        }
      }
      ConsSorted(s[0], rest, descending);
    }
  }

  /** `list.sort(key=lambda f: f.lower(), reverse=descending)`. */
  function SortNames(s: seq<string>, descending: bool): (r: seq<string>)
    ensures multiset(r) == multiset(s)
    ensures SortedBy(r, descending)
  {
    if |s| == 0 then []
    else
      assert s == [s[0]] + s[1..];
      InsertSorted(s[0], SortNames(s[1..], descending), descending);
      Insert(s[0], SortNames(s[1..], descending), descending)
  }

  /** `get_image_files`: the sorted image names of a directory, nothing for a path that is not one. */
  function GetImageFiles(listing: Listing, folder: string, order: SortMethod): (files: seq<string>)
    ensures folder !in listing ==> files == []
    ensures folder in listing ==> multiset(files) == multiset(ImageNames(listing[folder]))
    ensures order == Alphabetical ==> SortedBy(files, false)
    ensures order == AlphabeticalReverse ==> SortedBy(files, true)
    ensures order == ListingOrder && folder in listing ==> files == ImageNames(listing[folder])
  {
    if folder !in listing then []
    else
      var names := ImageNames(listing[folder]);
      match order
      case Alphabetical => SortNames(names, false)
      case AlphabeticalReverse => SortNames(names, true)
      case ListingOrder => names
  }

  // ---------------------------------------------------------------------------
  // Chunking a folder into batches
  // ---------------------------------------------------------------------------

  /** `math.ceil(n / k)`. */
  function NumBatches(n: nat, k: nat): nat
    requires k >= 1
  {
    (n + k - 1) / k
  }

  /** The number of batches is the least count whose batches of `k` cover `n` files. */
  lemma NumBatchesBounds(n: nat, k: nat)
    requires k >= 1
    ensures n <= NumBatches(n, k) * k
    ensures NumBatches(n, k) == 0 || (NumBatches(n, k) - 1) * k < n
    ensures NumBatches(n, k) == 0 <==> n == 0
  {
    var r := (n + k - 1) / k;
    assert r * k + (n + k - 1) % k == n + k - 1;
  }

  lemma MulLe(a: nat, b: nat, k: nat)
    requires a <= b
    ensures a * k <= b * k
  {
    assert b * k - a * k == (b - a) * k;
  }

  lemma DivUnique(x: nat, k: nat, q: nat, r: nat)
    requires k >= 1 && r < k && x == q * k + r
    ensures x / k == q
  {
    var q' := x / k;
    assert x == q' * k + x % k;
    if q' < q {
      MulLe(q' + 1, q, k);
    } else if q' > q {
      MulLe(q + 1, q', k);
    }
  }

  /** An empty folder has no batches. */
  lemma NumBatchesZero(k: nat)
    requires k >= 1
    ensures NumBatches(0, k) == 0
  {
    DivUnique(k - 1, k, 0, k - 1);
  }

  /** Taking one batch off a non-empty list leaves one batch fewer. */
  lemma NumBatchesStep(n: nat, k: nat)
    requires k >= 1 && n > 0
    ensures NumBatches(n, k) == 1 + NumBatches(n - Min(k, n), k)
  {
    if n <= k {
      DivUnique(n + k - 1, k, 1, n - 1);
      NumBatchesZero(k);
    } else {
      var x := n - k + k - 1;
      DivUnique(x + k, k, x / k + 1, x % k);
    }
  }

  lemma MulStep(i: nat, k: nat)
    requires i >= 1
    ensures (i - 1) * k + k == i * k
  {
  }

  /** The batches of one folder: the first `k` files, then the batches of the rest. */
  function Chunks(files: seq<string>, k: nat): seq<seq<string>>
    requires k >= 1
    decreases |files|
  {
    if |files| == 0 then []
    else
      var m := Min(k, |files|);
      [files[..m]] + Chunks(files[m..], k)
  }

  /** A folder of n files gives `math.ceil(n / k)` batches. */
  lemma {:induction false} ChunksCount(files: seq<string>, k: nat)
    requires k >= 1
    ensures |Chunks(files, k)| == NumBatches(|files|, k)
    decreases |files|
  {
    if |files| > 0 {
      var m := Min(k, |files|);
      ChunksCount(files[m..], k);
      NumBatchesStep(|files|, k);
    } else {
      NumBatchesZero(k);
    }
  }

  /** A list of at most `k` files is at most one batch. */
  lemma ChunksShort(files: seq<string>, k: nat)
    requires k >= 1
    ensures |files| <= k ==> |Chunks(files, k)| <= 1
  {
    if 0 < |files| <= k {
      assert files[|files|..] == [];
    }
  }

  lemma SliceOfDrop(files: seq<string>, k: nat, lo: nat, hi: nat)
    requires k <= |files| && lo <= hi <= |files| - k
    ensures files[k..][lo .. hi] == files[lo + k .. hi + k]
  {
  }

  /** `i * k`, counted up one batch at a time. */
  function Offset(i: nat, k: nat): nat {
    if i == 0 then 0 else Offset(i - 1, k) + k
  }

  lemma {:induction false} OffsetIsProduct(i: nat, k: nat)
    ensures Offset(i, k) == i * k
  {
    if i > 0 {
      OffsetIsProduct(i - 1, k);
      MulStep(i, k);
    }
  }

  lemma {:induction false} ChunkAtOffset(files: seq<string>, k: nat, i: nat)
    requires k >= 1 && i < |Chunks(files, k)|
    ensures Offset(i, k) < |files|
    ensures Chunks(files, k)[i] == files[Offset(i, k) .. Min(Offset(i, k) + k, |files|)]
    decreases |files|
  {
    var m := Min(k, |files|);
    if i == 0 {
      assert files[..m] == files[0 .. m];
    } else {
      ChunksShort(files, k);
      ChunkAtOffset(files[k..], k, i - 1);
      ChunkAtOffsetStep(files, k, i);
    }
  }

  /** One step of `ChunkAtOffset`: batch `i` of a list is batch `i - 1` of the list past its first batch. */
  lemma ChunkAtOffsetStep(files: seq<string>, k: nat, i: nat)
    requires k >= 1 && 0 < i && k < |files|
    requires i - 1 < |Chunks(files[k..], k)|
    requires Offset(i - 1, k) < |files| - k
    requires Chunks(files[k..], k)[i - 1]
      == files[k..][Offset(i - 1, k) .. Min(Offset(i - 1, k) + k, |files| - k)]
    ensures Offset(i, k) < |files|
    ensures i < |Chunks(files, k)|
    ensures Chunks(files, k)[i] == files[Offset(i, k) .. Min(Offset(i, k) + k, |files|)]
  {
    var rest := Chunks(files[k..], k);
    assert Chunks(files, k) == [files[..k]] + rest;
    var lo := Offset(i - 1, k);
    var hi := Min(lo + k, |files| - k);
    SliceOfDrop(files, k, lo, hi);
  }

  /** Batch `i` is the slice `[i * k : min(i * k + k, n)]` that `build_batch_map` takes. */
  lemma ChunksIndex(files: seq<string>, k: nat, i: nat)
    requires k >= 1 && i < |Chunks(files, k)|
    ensures i * k < |files|
    ensures Chunks(files, k)[i] == files[i * k .. Min(i * k + k, |files|)]
  {
    ChunkAtOffset(files, k, i);
    OffsetIsProduct(i, k);
  }

  /** Every batch holds 1 to `k` files, and all but the last exactly `k`. */
  lemma {:induction false} ChunksSizes(files: seq<string>, k: nat)
    requires k >= 1
    ensures forall i :: 0 <= i < |Chunks(files, k)| ==> 1 <= |Chunks(files, k)[i]| <= k
    ensures forall i :: 0 <= i < |Chunks(files, k)| - 1 ==> |Chunks(files, k)[i]| == k
    decreases |files|
  {
    if |files| > 0 {
      var m := Min(k, |files|);
      var rest := Chunks(files[m..], k);
      ChunksSizes(files[m..], k);
      var r := [files[..m]] + rest;
      assert Chunks(files, k) == r;
      forall i | 0 < i < |r| ensures r[i] == rest[i - 1] {
      }
      if |rest| > 0 {
        assert m == k;
      }
    }
  }

  /** The batches of a folder, concatenated in order, give back its whole file list. */
  lemma {:induction false} ChunksFlatten(files: seq<string>, k: nat)
    requires k >= 1
    ensures Flatten(Chunks(files, k)) == files
    decreases |files|
  {
    if |files| > 0 {
      var m := Min(k, |files|);
      ChunksFlatten(files[m..], k);
      var r := [files[..m]] + Chunks(files[m..], k);
      assert r[1..] == Chunks(files[m..], k);
      assert files == files[..m] + files[m..];
    }
  }

  // ---------------------------------------------------------------------------
  // The batch map
  // ---------------------------------------------------------------------------

  function Describe(folder: string, chunks: seq<seq<string>>): (r: seq<Descriptor>)
    ensures |r| == |chunks|
    ensures forall i :: 0 <= i < |r| ==> r[i] == Descriptor(folder, chunks[i])
  {
    seq(|chunks|, i requires 0 <= i < |chunks| => Descriptor(folder, chunks[i]))
  }

  /** The descriptors of one sanitised folder path. */
  function FolderBatches(folder: string, k: nat, order: SortMethod, listing: Listing): seq<Descriptor>
    requires k >= 1
  {
    if folder == [] then []
    else if folder !in listing then []
    else
      var files := GetImageFiles(listing, folder, order);
      if files == [] then []
      else Describe(folder, Chunks(files, k))
  }

  /** The descriptors of one folder's non-empty file list: ceil(n / k) of
      them, all naming that folder, holding 1 to k files, all but the last
      full, and together holding the whole list in order. */
  lemma DescribeChunks(folder: string, files: seq<string>, k: nat)
    requires k >= 1
    ensures var r := Describe(folder, Chunks(files, k));
      && |r| == NumBatches(|files|, k)
      && (forall i :: 0 <= i < |r| ==> r[i].folder == folder && 1 <= |r[i].files| <= k)
      && (forall i :: 0 <= i < |r| - 1 ==> |r[i].files| == k)
      && Flatten(FilesOf(r)) == files
  {
    var chunks := Chunks(files, k);
    ChunksCount(files, k);
    ChunksSizes(files, k);
    ChunksFlatten(files, k);
    assert FilesOf(Describe(folder, chunks)) == chunks;
  }

  /** A folder contributes nothing exactly when its path is "", it is not a
      directory or it has no image files; otherwise it contributes the
      descriptors of its sorted image files. */
  lemma FolderBatchesShape(folder: string, k: nat, order: SortMethod, listing: Listing)
    requires k >= 1
    ensures var r := FolderBatches(folder, k, order, listing);
      && (r == [] <==> folder == [] || folder !in listing || GetImageFiles(listing, folder, order) == [])
      && (r != [] ==> r == Describe(folder, Chunks(GetImageFiles(listing, folder, order), k)))
  {
    if folder != [] && folder in listing {
      var files := GetImageFiles(listing, folder, order);
      if files != [] {
        ChunksCount(files, k);
        NumBatchesBounds(|files|, k);
      }
    }
  }

  /** The file lists of a sequence of descriptors. */
  function FilesOf(ds: seq<Descriptor>): (r: seq<seq<string>>)
    ensures |r| == |ds|
    ensures forall i :: 0 <= i < |ds| ==> r[i] == ds[i].files
  {
    seq(|ds|, i requires 0 <= i < |ds| => ds[i].files)
  }

  /** The sanitised form of every line. */
  function SanitizeLines(lines: seq<string>): seq<string> {
    seq(|lines|, i requires 0 <= i < |lines| => BatcherSanitizePath(lines[i]))
  }

  /** The descriptors of all folders, folder after folder (the loop over lines
      in `build_batch_map`, after each line is sanitised). */
  function BatchesOfFolders(folders: seq<string>, k: nat, order: SortMethod, listing: Listing): seq<Descriptor>
    requires k >= 1
  {
    if |folders| == 0 then []
    else FolderBatches(folders[0], k, order, listing) + BatchesOfFolders(folders[1..], k, order, listing)
  }

  /** Descriptor order follows line order. */
  lemma {:induction false} BatchesOfFoldersAppend(a: seq<string>, b: seq<string>, k: nat, order: SortMethod, listing: Listing)
    requires k >= 1
    ensures BatchesOfFolders(a + b, k, order, listing)
         == BatchesOfFolders(a, k, order, listing) + BatchesOfFolders(b, k, order, listing)
  {
    if |a| == 0 {
      assert a + b == b;
    } else {
      assert (a + b)[0] == a[0];
      assert (a + b)[1..] == a[1..] + b;
      BatchesOfFoldersAppend(a[1..], b, k, order, listing);
      var h := FolderBatches(a[0], k, order, listing);
      var x := BatchesOfFolders(a[1..], k, order, listing);
      var y := BatchesOfFolders(b, k, order, listing);
      assert BatchesOfFolders(a + b, k, order, listing) == h + (x + y);
      assert h + (x + y) == (h + x) + y;
    }
  }

  /** Every descriptor comes from one of the folders. */
  lemma {:induction false} BatchesOfFoldersMembers(folders: seq<string>, k: nat, order: SortMethod, listing: Listing, d: Descriptor)
    requires k >= 1
    requires d in BatchesOfFolders(folders, k, order, listing)
    ensures exists i :: 0 <= i < |folders| && d in FolderBatches(folders[i], k, order, listing)
  {
    if d !in FolderBatches(folders[0], k, order, listing) {
      BatchesOfFoldersMembers(folders[1..], k, order, listing, d);
      var i :| 0 <= i < |folders[1..]| && d in FolderBatches(folders[1..][i], k, order, listing);
      assert folders[1..][i] == folders[i + 1];
    }
  }

  /** The lines of the folder list: `folder_paths_raw.strip().split('\n')`. */
  function FolderLines(raw: string): seq<string> {
    Split(Strip(raw), '\n')
  }

  /** `build_batch_map`: the descriptors of every sanitised line of the stripped text. */
  function BuildBatchMap(raw: string, k: nat, order: SortMethod, listing: Listing): seq<Descriptor>
    requires k >= 1
  {
    BatchesOfFolders(SanitizeLines(FolderLines(raw)), k, order, listing)
  }

  /** Every descriptor of the batch map holds 1 to `k` files of a non-empty
      folder path that the listing knows as a directory. */
  lemma BatchMapDescriptors(folders: seq<string>, k: nat, order: SortMethod, listing: Listing, d: Descriptor)
    requires k >= 1
    requires d in BatchesOfFolders(folders, k, order, listing)
    ensures d.folder in folders && d.folder in listing && d.folder != [] && 1 <= |d.files| <= k
  {
    BatchesOfFoldersMembers(folders, k, order, listing, d);
    var i :| 0 <= i < |folders| && d in FolderBatches(folders[i], k, order, listing);
    FolderBatchesShape(folders[i], k, order, listing);
    var r := FolderBatches(folders[i], k, order, listing);
    DescribeChunks(folders[i], GetImageFiles(listing, folders[i], order), k);
    var j :| 0 <= j < |r| && r[j] == d;
  }

  // ---------------------------------------------------------------------------
  // Loading one batch
  // ---------------------------------------------------------------------------

  /** How many of `files` load, given the set of (folder, file) pairs that fail to open. */
  function LoadedCount(folder: string, files: seq<string>, failing: set<(string, string)>): (n: nat)
    ensures n <= |files|
  {
    if |files| == 0 then 0
    else (if (folder, files[0]) in failing then 0 else 1) + LoadedCount(folder, files[1..], failing)
  }

  lemma {:induction false} LoadedCountAll(folder: string, files: seq<string>, failing: set<(string, string)>)
    ensures LoadedCount(folder, files, failing) == |files| <==> forall f :: f in files ==> (folder, f) !in failing
  {
    if |files| > 0 {
      LoadedCountAll(folder, files[1..], failing);
      assert files == [files[0]] + files[1..];
    }
  }

  /** `load_batch` without the pixels: the batch at `index`, or the DONE /
      EMPTY report once the index runs past the map. */
  function LoadBatch(batchMap: seq<Descriptor>, index: nat, failing: set<(string, string)>): (r: LoadResult)
    ensures r.totalBatches == |batchMap| && r.info.totalBatches == |batchMap|
    ensures r.info.batchIndex == index && r.info.batchCount == r.batchCount
    ensures index >= |batchMap| ==>
      r.batchCount == 0 && r.folderPath == [] &&
      r.info.folderPath == (if |batchMap| > 0 then "DONE" else "EMPTY")
    ensures index < |batchMap| ==>
      r.folderPath == batchMap[index].folder && r.info.folderPath == batchMap[index].folder &&
      r.batchCount == LoadedCount(batchMap[index].folder, batchMap[index].files, failing)
  {
    var total := |batchMap|;
    if index >= total || total == 0 then
      var status := if total > 0 then "DONE" else "EMPTY";
      LoadResult(BatchInfo(0, status, total, index), 0, "", total)
    else
      var d := batchMap[index];
      var count := LoadedCount(d.folder, d.files, failing);
      LoadResult(BatchInfo(count, d.folder, total, index), count, d.folder, total)
  }

  // ---------------------------------------------------------------------------
  // The per-folder summary of the "Calculate Batches" endpoint
  // ---------------------------------------------------------------------------

  function Folders(s: seq<FolderSummary>): set<string> {
    set i | 0 <= i < |s| :: s[i].folder
  }

  predicate DistinctFolders(s: seq<FolderSummary>) {
    forall i, j :: 0 <= i < j < |s| ==> s[i].folder != s[j].folder
  }

  function TotalBatches(s: seq<FolderSummary>): nat {
    if |s| == 0 then 0 else s[0].batchCount + TotalBatches(s[1..])
  }

  function TotalFiles(s: seq<FolderSummary>): nat {
    if |s| == 0 then 0 else s[0].fileCount + TotalFiles(s[1..])
  }

  /** Counts one descriptor into the summary: its folder's entry grows, or a
      new entry is appended when the folder is new. */
  function Tally(s: seq<FolderSummary>, d: Descriptor): (r: seq<FolderSummary>)
    ensures |s| <= |r| <= |s| + 1
    ensures forall i :: 0 <= i < |s| ==> r[i].folder == s[i].folder
  {
    if |s| == 0 then [FolderSummary(d.folder, |d.files|, 1)]
    else if s[0].folder == d.folder then
      [FolderSummary(d.folder, s[0].fileCount + |d.files|, s[0].batchCount + 1)] + s[1..]
    else
      [s[0]] + Tally(s[1..], d)
  }

  lemma FoldersCons(s: seq<FolderSummary>)
    requires |s| > 0
    ensures Folders(s) == {s[0].folder} + Folders(s[1..])
  {
    forall x | x in Folders(s) ensures x in {s[0].folder} + Folders(s[1..]) {
      var i :| 0 <= i < |s| && s[i].folder == x;
      if i > 0 { assert s[1..][i - 1].folder == x; }
    }
  }

  /** Tallying a descriptor adds one batch and its files to the totals. */
  lemma {:induction false} TallyTotals(s: seq<FolderSummary>, d: Descriptor)
    ensures TotalBatches(Tally(s, d)) == TotalBatches(s) + 1
    ensures TotalFiles(Tally(s, d)) == TotalFiles(s) + |d.files|
  {
    var r := Tally(s, d);
    if |s| > 0 {
      if s[0].folder == d.folder {
        assert r[1..] == s[1..];
      } else {
        TallyTotals(s[1..], d);
        assert r[1..] == Tally(s[1..], d);
      }
    }
  }

  /** Tallying a descriptor adds its folder to the folders and never lists a folder twice. */
  lemma TallyFolders(s: seq<FolderSummary>, d: Descriptor)
    ensures Folders(Tally(s, d)) == Folders(s) + {d.folder}
    ensures DistinctFolders(s) ==> DistinctFolders(Tally(s, d))
  {
    TallyFolderSet(s, d);
    if DistinctFolders(s) {
      TallyDistinct(s, d);
    }
  }

  lemma {:induction false} TallyFolderSet(s: seq<FolderSummary>, d: Descriptor)
    ensures Folders(Tally(s, d)) == Folders(s) + {d.folder}
  {
    var r := Tally(s, d);
    FoldersCons(r);
    if |s| == 0 {
      assert r[1..] == [];
    } else if s[0].folder == d.folder {
      HeadOfAppend([r[0]], s[1..]);
      FoldersCons(s);
    } else {
      TallyFolderSet(s[1..], d);
      HeadOfAppend([s[0]], Tally(s[1..], d));
      FoldersCons(s);
    }
  }

  lemma {:induction false} TallyDistinct(s: seq<FolderSummary>, d: Descriptor)
    requires DistinctFolders(s)
    ensures DistinctFolders(Tally(s, d))
  {
    var r := Tally(s, d);
    if |s| > 0 && s[0].folder != d.folder {
      var rest := Tally(s[1..], d);
      assert DistinctFolders(s[1..]) by {
        forall i, j | 0 <= i < j < |s[1..]| ensures s[1..][i].folder != s[1..][j].folder {
          assert s[1..][i] == s[i + 1] && s[1..][j] == s[j + 1];
        }
      }
      TallyDistinct(s[1..], d);
      TallyFolderSet(s[1..], d);
      DistinctAfterTally(s, d, rest, r);
    } else if |s| > 0 {
      forall i, j | 0 <= i < j < |r| ensures r[i].folder != r[j].folder {
        assert r[i].folder == s[i].folder && r[j].folder == s[j].folder;
      }
    }
  }

  lemma DistinctAfterTally(s: seq<FolderSummary>, d: Descriptor, rest: seq<FolderSummary>, r: seq<FolderSummary>)
    requires |s| > 0 && DistinctFolders(s) && s[0].folder != d.folder
    requires DistinctFolders(rest) && Folders(rest) == Folders(s[1..]) + {d.folder}
    requires r == [s[0]] + rest
    ensures DistinctFolders(r)
  {
    FoldersCons(s);
    assert s[0].folder !in Folders(s[1..]) by {
      forall i | 0 <= i < |s| - 1 ensures s[1..][i].folder != s[0].folder {
        assert s[1..][i] == s[i + 1];
      }
    }
    forall i, j | 0 <= i < j < |r| ensures r[i].folder != r[j].folder {
      assert rest[j - 1] == r[j];
      assert r[j].folder in Folders(rest);
      if i > 0 {
        assert rest[i - 1] == r[i];
      }
    }
  }

  /** The loop of `calculate_batches` over the batch map, in order. */
  function Summarize(batchMap: seq<Descriptor>): (r: seq<FolderSummary>)
    ensures TotalBatches(r) == |batchMap|
    ensures DistinctFolders(r)
    ensures Folders(r) == set d | d in batchMap :: d.folder
  {
    if |batchMap| == 0 then []
    else
      var init := batchMap[..|batchMap| - 1];
      var last := batchMap[|batchMap| - 1];
      assert batchMap == init + [last];
      TallyTotals(Summarize(init), last);
      TallyFolders(Summarize(init), last);
      Tally(Summarize(init), last)
  }

  /** The number of files of all descriptors. */
  function FileTotal(batchMap: seq<Descriptor>): nat {
    if |batchMap| == 0 then 0 else FileTotal(batchMap[..|batchMap| - 1]) + |batchMap[|batchMap| - 1].files|
  }

  /** The summary's file counts add up to the files of the whole batch map. */
  lemma {:induction false} SummarizeFiles(batchMap: seq<Descriptor>)
    ensures TotalFiles(Summarize(batchMap)) == FileTotal(batchMap)
  {
    if |batchMap| > 0 {
      SummarizeFiles(batchMap[..|batchMap| - 1]);
      TallyTotals(Summarize(batchMap[..|batchMap| - 1]), batchMap[|batchMap| - 1]);
    }
  }

  /** The (file count, batch count) of the entry for `folder`, (0, 0) when there is none. */
  function Lookup(s: seq<FolderSummary>, folder: string): (nat, nat) {
    if |s| == 0 then (0, 0)
    else if s[0].folder == folder then (s[0].fileCount, s[0].batchCount)
    else Lookup(s[1..], folder)
  }

  /** The number of descriptors of `folder` and the files they hold. */
  function FolderTotals(batchMap: seq<Descriptor>, folder: string): (nat, nat) {
    if |batchMap| == 0 then (0, 0)
    else
      var t := FolderTotals(batchMap[..|batchMap| - 1], folder);
      var d := batchMap[|batchMap| - 1];
      if d.folder == folder then (t.0 + |d.files|, t.1 + 1) else t
  }

  /** Tallying a descriptor grows its own folder's entry and leaves every other entry alone. */
  lemma {:induction false} TallyLookup(s: seq<FolderSummary>, d: Descriptor, folder: string)
    ensures Lookup(Tally(s, d), folder) ==
      if folder == d.folder then (Lookup(s, folder).0 + |d.files|, Lookup(s, folder).1 + 1)
      else Lookup(s, folder)
  {
    var r := Tally(s, d);
    if |s| == 0 {
      assert r[1..] == [];
    } else if s[0].folder == d.folder {
      assert r[1..] == s[1..];
    } else {
      TallyLookup(s[1..], d, folder);
      assert r[1..] == Tally(s[1..], d);
    }
  }

  /** Each folder's entry counts exactly the batches of that folder and the
      files they hold; a folder absent from the batch map counts (0, 0). */
  lemma {:induction false} SummarizeCounts(batchMap: seq<Descriptor>, folder: string)
    ensures Lookup(Summarize(batchMap), folder) == FolderTotals(batchMap, folder)
  {
    if |batchMap| > 0 {
      var init := batchMap[..|batchMap| - 1];
      SummarizeCounts(init, folder);
      TallyLookup(Summarize(init), batchMap[|batchMap| - 1], folder);
    }
  }

  /** Every descriptor of `build_batch_map` names the sanitised form of one of
      the input lines, a directory of the listing, and holds 1 to `k` files. */
  lemma BuildBatchMapDescriptors(raw: string, k: nat, order: SortMethod, listing: Listing)
    requires k >= 1
    ensures forall d :: d in BuildBatchMap(raw, k, order, listing) ==>
      && (exists i :: 0 <= i < |FolderLines(raw)| && BatcherSanitizePath(FolderLines(raw)[i]) == d.folder)
      && d.folder in listing && d.folder != [] && 1 <= |d.files| <= k
  {
    var lines := FolderLines(raw);
    forall d | d in BuildBatchMap(raw, k, order, listing)
      ensures exists i :: 0 <= i < |lines| && BatcherSanitizePath(lines[i]) == d.folder
      ensures d.folder in listing && d.folder != [] && 1 <= |d.files| <= k
    {
      BatchMapDescriptors(SanitizeLines(lines), k, order, listing, d);
      SanitizedLine(lines, d.folder);
    }
  }

  /** A sanitised folder path comes from one of the lines. */
  lemma SanitizedLine(lines: seq<string>, folder: string)
    ensures folder in SanitizeLines(lines) ==>
      exists i :: 0 <= i < |lines| && BatcherSanitizePath(lines[i]) == folder
  {
    if folder in SanitizeLines(lines) {
      var i :| 0 <= i < |lines| && SanitizeLines(lines)[i] == folder;
    }
  }

  /** The response of the "Calculate Batches" endpoint for a batch map: the
      number of batches and the per-folder summary. */
  function Report(batchMap: seq<Descriptor>): (r: (nat, seq<FolderSummary>))
    ensures r.0 == TotalBatches(r.1)
    ensures DistinctFolders(r.1)
  {
    (|batchMap|, Summarize(batchMap))
  }

  /** The "Calculate Batches" endpoint, with `batch_size` clamped to at least 1. */
  function CalculateBatches(raw: string, batchSize: int, sortMethod: string, listing: Listing): (nat, seq<FolderSummary>) {
    var k := if batchSize < 1 then 1 else batchSize;
    Report(BuildBatchMap(raw, k, ParseSortMethod(sortMethod), listing))
  }
}
