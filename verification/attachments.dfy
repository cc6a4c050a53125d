/**
 The attachment list of the quote form (upload.js, sections 4 and 5).
 Files arrive in batches from the picker or a drop; a file whose name and
 size match one already listed is skipped; the selection as a whole must
 stay under a 10 MiB ceiling; single entries can be removed; each entry is
 shown with a size label and an icon chosen by its extension.
 */
module Attachments {
  import opened Js

  /** The form backend's free-plan ceiling: 10 MiB. */
  const MaxTotalSize: nat := 10 * 1024 * 1024

  /** What the list keeps of a browser `File`: its name and byte size.
      Two files with equal name and size count as the same attachment, so
      record equality is the duplicate test of upload.js:52. */
  datatype FileInfo = FileInfo(name: string, size: nat)

  /** No two entries share a name and a size. */
  predicate NoDuplicates(files: seq<FileInfo>) {
    forall i, j :: 0 <= i < j < |files| ==> files[i] != files[j]
  }

  /** Sum of the sizes, accumulated left to right as `reduce` does. */
  function Total(files: seq<FileInfo>): nat {
    if files == [] then 0 else Total(files[..|files| - 1]) + files[|files| - 1].size
  }

  /** The invariant the list keeps between user actions. */
  predicate WellFormed(files: seq<FileInfo>) {
    NoDuplicates(files) && Total(files) <= MaxTotalSize
  }

  lemma {:induction false} TotalAppend(a: seq<FileInfo>, b: seq<FileInfo>)
    ensures Total(a + b) == Total(a) + Total(b)
    decreases |b|
  {
    if b != [] {
      TotalAppend(a, b[..|b| - 1]);
      var ab := a + b;
      assert ab != [] && ab[|ab| - 1] == b[|b| - 1];
      assert ab[..|ab| - 1] == a + b[..|b| - 1];
      assert Total(ab) == Total(ab[..|ab| - 1]) + ab[|ab| - 1].size;
      assert Total(ab[..|ab| - 1]) == Total(a) + Total(b[..|b| - 1]);
      assert Total(b) == Total(b[..|b| - 1]) + b[|b| - 1].size;
    } else {
      assert a + b == a;
    }
  }

  lemma TotalOfPrefix(a: seq<FileInfo>, p: seq<FileInfo>)
    requires p <= a
    ensures Total(p) <= Total(a)
  {
    assert a == p + a[|p|..];
    TotalAppend(p, a[|p|..]);
  }

  /** `a` can be obtained from `b` by deleting elements, so `a` keeps the
      order its elements have in `b`. */
  predicate IsSubsequence<T(==)>(a: seq<T>, b: seq<T>)
    decreases |b|
  {
    || a == []
    || (&& b != []
        && ((a[0] == b[0] && IsSubsequence(a[1..], b[1..])) || IsSubsequence(a, b[1..])))
  }

  /* ---------------------------------------------------------------- */
  /* Adding a batch                                                   */
  /* ---------------------------------------------------------------- */

  /** The loop of upload.js:50-56: every batch file is pushed unless the
      list built so far already holds it, so a repeat inside the batch is
      skipped as well. */
  function Merge(files: seq<FileInfo>, batch: seq<FileInfo>): (r: seq<FileInfo>)
    ensures |files| <= |r| <= |files| + |batch|
    ensures r[..|files|] == files
    ensures forall f :: f in r <==> f in files || f in batch
    decreases |batch|
  {
    if batch == [] then files
    else
      var grown := if batch[0] in files then files else files + [batch[0]];
      Merge(grown, batch[1..])
  }

  /** Merging never lets a duplicate into a duplicate-free list. */
  lemma {:induction false} MergeKeepsNoDuplicates(files: seq<FileInfo>, batch: seq<FileInfo>)
    ensures NoDuplicates(files) ==> NoDuplicates(Merge(files, batch))
    decreases |batch|
  {
    if batch != [] && NoDuplicates(files) {
      var grown := if batch[0] in files then files else files + [batch[0]];
      forall i, j | 0 <= i < j < |grown| ensures grown[i] != grown[j] {
        if j == |files| {
          assert grown[i] == files[i] && grown[j] !in files;
        } else {
          assert grown[i] == files[i] && grown[j] == files[j];
        }
      }
      MergeKeepsNoDuplicates(grown, batch[1..]);
    }
  }

  /** When nothing in the batch repeats anything, every batch file is
      appended, in order. */
  lemma {:induction false} MergeOfFreshBatch(files: seq<FileInfo>, batch: seq<FileInfo>)
    ensures NoDuplicates(files + batch) ==> Merge(files, batch) == files + batch
    decreases |batch|
  {
    if batch == [] {
      assert files + batch == files;
    } else if NoDuplicates(files + batch) {
      FreshHeadOfDuplicateFree(files, batch);
      MergeOfFreshBatch(files + [batch[0]], batch[1..]);
    }
  }

  /** In a duplicate-free `files + batch` the first batch file is new, and
      moving it to the end of `files` leaves the concatenation unchanged. */
  lemma FreshHeadOfDuplicateFree(files: seq<FileInfo>, batch: seq<FileInfo>)
    requires batch != []
    ensures NoDuplicates(files + batch) ==> batch[0] !in files
    ensures (files + [batch[0]]) + batch[1..] == files + batch
  {
    var fb := files + batch;
    if NoDuplicates(fb) {
      forall k | 0 <= k < |files|
        ensures files[k] != batch[0]
      {
        assert files[k] == fb[k] && batch[0] == fb[|files|];
      }
    }
    assert batch == [batch[0]] + batch[1..];
  }

  /** The files a batch adds come after the prior list, in arrival order. */
  lemma {:induction false} MergeKeepsArrivalOrder(files: seq<FileInfo>, batch: seq<FileInfo>)
    ensures IsSubsequence(Merge(files, batch)[|files|..], batch)
    decreases |batch|
  {
    if batch != [] {
      var grown := if batch[0] in files then files else files + [batch[0]];
      MergeKeepsArrivalOrder(grown, batch[1..]);
      var m := Merge(files, batch);
      assert m == Merge(grown, batch[1..]);
      var added, rest := m[|files|..], m[|grown|..];
      if batch[0] !in files {
        assert added == [batch[0]] + rest;
        assert added[0] == batch[0] && added[1..] == rest;
      } else {
        assert added == rest;
      }
    }
  }

  /** Merging is first arrival: a further batch file is appended exactly
      when neither the list nor an earlier batch file already holds it. */
  lemma {:induction false} MergeSnoc(files: seq<FileInfo>, batch: seq<FileInfo>, x: FileInfo)
    ensures Merge(files, batch + [x])
            == Merge(files, batch) + (if x in Merge(files, batch) then [] else [x])
    decreases |batch|
  {
    if batch == [] {
      assert batch + [x] == [x] && [x][1..] == [];
    } else {
      var grown := if batch[0] in files then files else files + [batch[0]];
      assert (batch + [x])[0] == batch[0] && (batch + [x])[1..] == batch[1..] + [x];
      MergeSnoc(grown, batch[1..], x);
    }
  }

  /** `s.slice(0, -k)`: all but the last `k` elements. `-0` is `0`, so for
      `k == 0` the slice is empty. */
  function SliceToMinus<T>(s: seq<T>, k: nat): (r: seq<T>)
    ensures r <= s
    ensures k == 0 ==> r == []
    ensures k > 0 ==> |r| == if |s| >= k then |s| - k else 0
  {
    if k == 0 then [] else if |s| >= k then s[..|s| - k] else []
  }

  /** What adding a batch leaves: the new list, and whether the
      oversize error was shown. */
  datatype AddResult = AddResult(files: seq<FileInfo>, oversize: bool)

  /** `addFiles` as written (upload.js:49-66). When the merged total exceeds
      the ceiling the error is raised and the last `|batch|` entries are
      dropped. That is one prior entry too many for every batch file that
      was skipped as a duplicate, so it restores the prior list when no
      batch file was, and otherwise can also drop files that were already
      listed (see `RevertDropsPriorFile`). */
  function AddFiles(files: seq<FileInfo>, batch: seq<FileInfo>): (r: AddResult)
    ensures r.oversize <==> Total(Merge(files, batch)) > MaxTotalSize
    ensures !r.oversize ==> r.files == Merge(files, batch)
    ensures !r.oversize ==> && |files| <= |r.files| && r.files[..|files|] == files
                            && (forall f :: f in r.files <==> f in files || f in batch)
                            && Total(r.files) <= MaxTotalSize
    ensures r.oversize ==> r.files <= files
    ensures r.oversize && batch != [] ==>
              var skipped := |files| + |batch| - |Merge(files, batch)|;
              |files| - |r.files| == if skipped <= |files| then skipped else |files|
    ensures r.oversize && batch == [] ==> r.files == []
    ensures r.oversize && batch != [] && NoDuplicates(files + batch) ==> r.files == files
    ensures NoDuplicates(files) ==> NoDuplicates(r.files)
  {
    var merged := Merge(files, batch);
    MergeKeepsNoDuplicates(files, batch);
    MergeOfFreshBatch(files, batch);
    if Total(merged) > MaxTotalSize then
      AddResult(SliceToMinus(merged, |batch|), true)
    else
      AddResult(merged, false)
  }

  /** The revert undoes a whole batch: the corrected `addFiles`, which on
      overflow puts back exactly the list it started from. */
  function AddFilesRestoring(files: seq<FileInfo>, batch: seq<FileInfo>): (r: AddResult)
    ensures r.oversize <==> Total(Merge(files, batch)) > MaxTotalSize
    ensures !r.oversize ==> r.files == Merge(files, batch)
    ensures !r.oversize ==> && |files| <= |r.files| && r.files[..|files|] == files
                            && (forall f :: f in r.files <==> f in files || f in batch)
                            && Total(r.files) <= MaxTotalSize
    ensures r.oversize ==> r.files == files
    ensures NoDuplicates(files) ==> NoDuplicates(r.files)
  {
    var merged := Merge(files, batch);
    MergeKeepsNoDuplicates(files, batch);
    if Total(merged) > MaxTotalSize then AddResult(files, true) else AddResult(merged, false)
  }

  /** The input that shows the revert at upload.js:62 losing a file: a 6 MB
      file is listed, the same file comes again with a 5 MB one, the merged
      total is 11 MB, and dropping the last two entries empties the list. */
  lemma RevertDropsPriorFile()
    ensures var prior := [FileInfo("a.pdf", 6000000)];
            var batch := [FileInfo("a.pdf", 6000000), FileInfo("b.pdf", 5000000)];
            AddFiles(prior, batch) == AddResult([], true)
            && AddFilesRestoring(prior, batch) == AddResult(prior, true)
  {
    var prior := [FileInfo("a.pdf", 6000000)];
    var batch := [FileInfo("a.pdf", 6000000), FileInfo("b.pdf", 5000000)];
    var merged := prior + [batch[1]];
    assert Merge(prior, batch[1..]) == merged;
    assert Merge(prior, batch) == merged;
    assert Total(merged) == 11000000;
  }

  /** Both versions keep the list well formed: no duplicates, within the
      ceiling. */
  lemma AddFilesKeepsWellFormed(files: seq<FileInfo>, batch: seq<FileInfo>)
    requires WellFormed(files)
    ensures WellFormed(AddFiles(files, batch).files)
    ensures WellFormed(AddFilesRestoring(files, batch).files)
  {
    var r := AddFiles(files, batch);
    if r.oversize {
      TotalOfPrefix(files, r.files);
    }
  }

  /** An empty batch (a cancelled picker) changes nothing while the list is
      within the ceiling, so the `slice(0, -0)` that would clear it is
      never reached. */
  lemma EmptyBatchChangesNothing(files: seq<FileInfo>)
    requires Total(files) <= MaxTotalSize
    ensures AddFiles(files, []) == AddResult(files, false)
  {
  }

  /* ---------------------------------------------------------------- */
  /* Removing an entry                                                */
  /* ---------------------------------------------------------------- */

  /** `selectedFiles.splice(i, 1)`: deletes the entry at `i`, keeps the
      others in order; an index past the end changes nothing. */
  function RemoveAt(files: seq<FileInfo>, i: nat): (r: seq<FileInfo>)
    ensures i < |files| ==> && |r| == |files| - 1
                            && (forall j :: 0 <= j < i ==> r[j] == files[j])
                            && (forall j :: i <= j < |r| ==> r[j] == files[j + 1])
    ensures i >= |files| ==> r == files
  {
    if i < |files| then files[..i] + files[i + 1..] else files
  }

  /** Removing an entry takes exactly its size off the total. */
  lemma RemoveAtTakesOffItsSize(files: seq<FileInfo>, i: nat)
    requires i < |files|
    ensures Total(RemoveAt(files, i)) + files[i].size == Total(files)
  {
    TotalAround(files, i);
    var after := files[i + 1..];
    assert RemoveAt(files, i) == files[..i] + after;
    TotalAppend(files[..i], after);
  }

  /** The running total grows by each entry's size. */
  lemma TotalOfPrefixStep(files: seq<FileInfo>, i: nat)
    requires i < |files|
    ensures Total(files[..i + 1]) == Total(files[..i]) + files[i].size
  {
    assert files[..i + 1][..i] == files[..i];
  }

  /** The total splits around any entry. */
  lemma TotalAround(files: seq<FileInfo>, i: nat)
    requires i < |files|
    ensures Total(files) == Total(files[..i]) + files[i].size + Total(files[i + 1..])
  {
    var after := files[i + 1..];
    TotalOfPrefixStep(files, i);
    assert files == files[..i + 1] + after;
    TotalAppend(files[..i + 1], after);
  }

  /** Removing an entry keeps the list well formed. */
  lemma RemoveAtKeepsWellFormed(files: seq<FileInfo>, i: nat)
    requires i < |files|
    requires WellFormed(files)
    ensures WellFormed(RemoveAt(files, i))
  {
    RemoveAtTakesOffItsSize(files, i);
    var r := RemoveAt(files, i);
    forall a, b | 0 <= a < b < |r| ensures r[a] != r[b] {
      var fa := if a < i then a else a + 1;
      var fb := if b < i then b else b + 1;
      assert r[a] == files[fa] && r[b] == files[fb] && fa < fb;
    }
  }

  /** Removing an entry takes out that one file and nothing else; from a
      duplicate-free list the file is then gone. */
  lemma RemoveAtTakesOutOneFile(files: seq<FileInfo>, i: nat)
    requires i < |files|
    ensures multiset(RemoveAt(files, i)) + multiset{files[i]} == multiset(files)
    ensures NoDuplicates(files) ==> files[i] !in RemoveAt(files, i)
  {
    var r := RemoveAt(files, i);
    assert files == files[..i] + [files[i]] + files[i + 1..];
    if NoDuplicates(files) {
      forall j | 0 <= j < |r|
        ensures r[j] != files[i]
      {
        if j < i {
          assert r[j] == files[j];
        } else {
          assert r[j] == files[j + 1];
        }
      }
    }
  }

  /* ---------------------------------------------------------------- */
  /* Extension and icon                                               */
  /* ---------------------------------------------------------------- */

  /** `name.split('.').pop()`: the text after the last `.`, or the whole
      name when it has none. */
  function Extension(name: string): (r: string)
    ensures '.' !in r
    ensures |r| <= |name| && r == name[|name| - |r|..]
    ensures |r| < |name| ==> name[|name| - |r| - 1] == '.'
  {
    if name == [] || name[|name| - 1] == '.' then []
    else Extension(name[..|name| - 1]) + [name[|name| - 1]]
  }

  /** The extension is the text after the last dot, whatever precedes it. */
  lemma {:induction false} ExtensionAfterLastDot(stem: string, ext: string)
    requires '.' !in ext
    ensures Extension(stem + "." + ext) == ext
    decreases |ext|
  {
    var name := stem + "." + ext;
    if ext != [] {
      var shorter := ext[..|ext| - 1];
      assert name[..|name| - 1] == stem + "." + shorter;
      assert name[|name| - 1] == ext[|ext| - 1];
      ExtensionAfterLastDot(stem, shorter);
      assert ext == shorter + [ext[|ext| - 1]];
    }
  }

  /** A name without a dot is its own extension. */
  lemma ExtensionOfDotlessName(name: string)
    ensures '.' !in name ==> Extension(name) == name
  {
  }

  /** upload.js:80: the lower-cased extension of `file.name`. It holds no
      dot, has as many characters as the extension, and for a name without
      a dot is the whole name lower-cased. */
  function FileExtension(name: string): (x: string)
    ensures '.' !in x && |x| == |Extension(name)|
    ensures '.' !in name ==> x == ToLower(name)
  {
    ExtensionOfDotlessName(name);
    ToLower(Extension(name))
  }

  const Fallback: string := "\U{1F4CE}"

  /** The table of upload.js:127-130. */
  const Icons: map<string, string> := map[
    "pdf" := "\U{1F4C4}", "ai" := "\U{1F3A8}", "psd" := "\U{1F5BC}",
    "png" := "\U{1F5BC}", "jpg" := "\U{1F5BC}", "jpeg" := "\U{1F5BC}",
    "svg" := "\U{1F3A8}", "eps" := "\U{1F3A8}", "zip" := "\U{1F4E6}",
    "rar" := "\U{1F4E6}"]

  /** `getFileIcon` with an own-property lookup: the ten listed extensions
      get their icon, every other string the paper clip. */
  function GetFileIcon(ext: string): (icon: string)
    ensures ext in Icons ==> icon == Icons[ext]
    ensures icon == Fallback <==> ext !in Icons
  {
    if ext in Icons then Icons[ext] else Fallback
  }

  /** The keys a plain object inherits from `Object.prototype`. Only
      `constructor` and `__proto__` are lower case, so only they can be the
      lower-cased extension of a file name. */
  const InheritedKeys: set<string> := {
    "constructor", "__proto__", "__defineGetter__", "__defineSetter__",
    "__lookupGetter__", "__lookupSetter__", "hasOwnProperty", "isPrototypeOf",
    "propertyIsEnumerable", "toLocaleString", "toString", "valueOf"}

  /** What `icons[ext] || '📎'` yields: a glyph, or an inherited member of
      `Object.prototype` (a function or the prototype object itself),
      which is truthy and is then shown as text in place of an icon. */
  datatype IconValue = Glyph(text: string) | InheritedMember(key: string)

  /** `getFileIcon` as written (upload.js:126-132): the bracket lookup also
      finds the members every object inherits. */
  function GetFileIconAsWritten(ext: string): (v: IconValue)
    ensures ext in Icons ==> v == Glyph(Icons[ext])
    ensures ext !in Icons && ext !in InheritedKeys ==> v == Glyph(Fallback)
    ensures ext in InheritedKeys ==> v == InheritedMember(ext)
  {
    if ext in Icons then Glyph(Icons[ext])
    else if ext in InheritedKeys then InheritedMember(ext)
    else Glyph(Fallback)
  }

  /** A file named `plan.constructor` is shown with `Object`'s source text
      as its icon by the code as written, and with the paper clip by the
      corrected lookup. */
  lemma ConstructorExtensionShowsNoIcon()
    ensures GetFileIconAsWritten(FileExtension("plan.constructor")).InheritedMember?
    ensures GetFileIcon(FileExtension("plan.constructor")) == Fallback
  {
    ConstructorExtension();
    assert "constructor" !in Icons;
  }

  /** The extension of `plan.constructor`, lower-cased, is `constructor`. */
  lemma ConstructorExtension()
    ensures FileExtension("plan.constructor") == "constructor"
  {
    var ext := "constructor";
    ExtensionAfterLastDot("plan", ext);
    assert "plan.constructor" == "plan" + "." + ext;
    LowerOfUncased(ext);
  }

  /** Lower-casing leaves a string without upper-case letters as it is. */
  lemma LowerOfUncased(s: string)
    requires forall k :: 0 <= k < |s| ==> !('A' <= s[k] <= 'Z')
    ensures ToLower(s) == s
  {
  }

  /** upload.js:80 and 88 together: the icon for a file name. */
  function IconForName(name: string): string {
    GetFileIcon(FileExtension(name))
  }

  /** The icon depends only on the lower-cased text after the last dot. */
  lemma IconFollowsExtension(stem: string, ext: string)
    requires '.' !in ext
    ensures IconForName(stem + "." + ext) == GetFileIcon(ToLower(ext))
    ensures ToLower(ext) in Icons ==> IconForName(stem + "." + ext) == Icons[ToLower(ext)]
    ensures ToLower(ext) !in Icons ==> IconForName(stem + "." + ext) == Fallback
  {
    ExtensionAfterLastDot(stem, ext);
  }

  /* ---------------------------------------------------------------- */
  /* Size label                                                       */
  /* ---------------------------------------------------------------- */

  const KiB: nat := 1024
  const MiB: nat := 1048576

  /** The value `formatSize` prints, before it becomes text. */
  datatype SizeLabel = NoSize | Kilobytes(kb: nat) | Megabytes(tenths: nat)

  /** upload.js:120-124: nothing for an empty file, whole kilobytes below
      1 MiB, megabytes with one decimal from 1 MiB on. `toFixed` picks the
      nearest value and, on a tie, the larger one; the divisions are by
      powers of two and so exact. */
  function SizeLabelOf(bytes: nat): (l: SizeLabel)
    ensures l == NoSize <==> bytes == 0
    ensures l.Kilobytes? <==> 0 < bytes < MiB
    ensures l.Megabytes? <==> bytes >= MiB
    ensures l.Kilobytes? ==> bytes - KiB / 2 < l.kb * KiB <= bytes + KiB / 2
    ensures l.Megabytes? ==> 10 * bytes - MiB / 2 < l.tenths * MiB <= 10 * bytes + MiB / 2
  {
    if bytes == 0 then NoSize
    else if bytes >= MiB then Megabytes((10 * bytes + MiB / 2) / MiB)
    else Kilobytes((bytes + KiB / 2) / KiB)
  }

  function SizeText(l: SizeLabel): string {
    match l
    case NoSize => ""
    case Kilobytes(k) => Decimal(k) + " KB"
    case Megabytes(t) => Decimal(t / 10) + "." + [DigitChar(t % 10)] + " MB"
  }

  /** Reads a size label back from its text. Numerals are read only in the
      form `String(n)` gives them, so a leading zero is refused. */
  function ParseSizeText(s: string): Option<SizeLabel> {
    if s == "" then Some(NoSize)
    else if |s| < 4 then None
    else ParseQuantity(s[..|s| - 3], s[|s| - 3..])
  }

  /** Reads the number before a unit: a numeral of kilobytes, or a
      numeral, a dot and one digit of megabytes. */
  function ParseQuantity(num: string, unit: string): Option<SizeLabel> {
    if unit == " KB" && IsNumeral(num) then
      Some(Kilobytes(DigitsValue(num)))
    else if unit == " MB" && |num| >= 3 && num[|num| - 2] == '.'
            && IsDigit(num[|num| - 1]) && IsNumeral(num[..|num| - 2]) then
      Some(Megabytes(10 * DigitsValue(num[..|num| - 2]) + DigitValue(num[|num| - 1])))
    else None
  }

  lemma KilobytesRoundTrip(k: nat)
    ensures ParseSizeText(SizeText(Kilobytes(k))) == Some(Kilobytes(k))
  {
    var s := SizeText(Kilobytes(k));
    assert s[|s| - 3..] == " KB";
    assert s[..|s| - 3] == Decimal(k);
    DecimalRoundTrip(k);
  }

  /** The megabyte text is a numeral, a dot and one digit, then " MB". */
  lemma MegabytesTextSplit(t: nat)
    ensures var s := SizeText(Megabytes(t));
            && |s| >= 3
            && s[|s| - 3..] == " MB"
            && s[..|s| - 3] == Decimal(t / 10) + "." + [DigitChar(t % 10)]
  {
    var num := Decimal(t / 10) + "." + [DigitChar(t % 10)];
    assert SizeText(Megabytes(t)) == num + " MB";
  }

  /** The parts of a numeral, a dot and a digit can be read back, and the
      whole is not all digits. */
  lemma DottedNumeral(whole: string, d: char)
    requires whole != [] && AllDigits(whole) && IsDigit(d)
    ensures var num := whole + "." + [d];
            && |num| >= 3 && num[|num| - 2] == '.' && num[|num| - 1] == d
            && num[..|num| - 2] == whole && !AllDigits(num)
  {
    var num := whole + "." + [d];
    assert num[..|num| - 2] == whole;
    assert !IsDigit(num[|num| - 2]);
  }

  lemma MegabytesRoundTrip(t: nat)
    ensures ParseSizeText(SizeText(Megabytes(t))) == Some(Megabytes(t))
  {
    var d := DigitChar(t % 10);
    MegabytesTextSplit(t);
    DottedNumeral(Decimal(t / 10), d);
    DecimalRoundTrip(t / 10);
    assert DigitValue(d) == t % 10;
  }

  /** The text of a size label determines the label. */
  lemma SizeTextRoundTrip(l: SizeLabel)
    ensures ParseSizeText(SizeText(l)) == Some(l)
  {
    match l
    case NoSize =>
    case Kilobytes(k) => KilobytesRoundTrip(k);
    case Megabytes(t) => MegabytesRoundTrip(t);
  }

  /** The parser accepts only the texts `SizeText` prints: a text that
      reads as a label is that label's text. */
  lemma ParsedTextIsSizeText(s: string)
    ensures ParseSizeText(s).Some? ==> s == SizeText(ParseSizeText(s).value)
  {
    if |s| >= 4 {
      var num, unit := s[..|s| - 3], s[|s| - 3..];
      assert s == num + unit;
      ParsedQuantityIsText(num, unit);
    }
  }

  /** `toFixed` never prints a leading zero, and the parser refuses one. */
  lemma LeadingZeroRefused()
    ensures ParseSizeText("01 KB") == None
    ensures ParseSizeText("01.0 MB") == None
  {
    assert "01 KB"[..2] == "01";
    assert "01.0 MB"[..4] == "01.0";
  }

  lemma ParsedQuantityIsText(num: string, unit: string)
    ensures ParseQuantity(num, unit).Some? ==> num + unit == SizeText(ParseQuantity(num, unit).value)
  {
    if unit == " KB" && IsNumeral(num) {
      KilobyteTextOf(num);
      assert ParseQuantity(num, unit) == Some(Kilobytes(DigitsValue(num)));
    } else if ParseQuantity(num, unit).Some? {
      assert unit == " MB";
      DottedQuantityIsText(num);
    }
  }

  /** A numeral, a dot and a digit read as megabytes print back as
      themselves. */
  lemma DottedQuantityIsText(num: string)
    requires |num| >= 3 && num[|num| - 2] == '.'
    requires IsDigit(num[|num| - 1]) && IsNumeral(num[..|num| - 2])
    ensures SizeText(Megabytes(10 * DigitsValue(num[..|num| - 2]) + DigitValue(num[|num| - 1])))
            == num + " MB"
  {
    var whole, d := num[..|num| - 2], num[|num| - 1];
    assert num == whole + "." + [d];
    assert Decimal(DigitsValue(whole)) == whole by { NumeralIsDecimal(whole); }
    assert DigitChar(DigitValue(d)) == d by { DigitCharOfValue(d); }
    MegabyteTextOf(whole, d);
  }

  /** The kilobyte label read from a numeral prints as that numeral and
      " KB". */
  lemma KilobyteTextOf(num: string)
    requires IsNumeral(num)
    ensures SizeText(Kilobytes(DigitsValue(num))) == num + " KB"
  {
    NumeralIsDecimal(num);
  }

  /** The megabyte label read from a numeral and a digit prints as that
      numeral, a dot, that digit and " MB". */
  lemma MegabyteTextOf(whole: string, d: char)
    requires IsNumeral(whole) && IsDigit(d)
    requires Decimal(DigitsValue(whole)) == whole && DigitChar(DigitValue(d)) == d
    ensures SizeText(Megabytes(10 * DigitsValue(whole) + DigitValue(d)))
            == whole + "." + [d] + " MB"
  {
    var a, b := DigitsValue(whole), DigitValue(d);
    var t := 10 * a + b;
    ModOfDecomposition(t, 10, a, b);
    assert t / 10 == a;
    calc {
      SizeText(Megabytes(t));
      Decimal(t / 10) + "." + [DigitChar(t % 10)] + " MB";
      Decimal(a) + "." + [DigitChar(b)] + " MB";
    }
  }

  /** `formatSize(bytes)`: empty exactly for an empty file, otherwise a
      numeral followed by " MB" from 1 MiB on and by " KB" below, and the
      text reads back as the rounded value `SizeLabelOf` describes. */
  function FormatSize(bytes: nat): (s: string)
    ensures s == "" <==> bytes == 0
    ensures bytes >= MiB ==> |s| > 3 && s[|s| - 3..] == " MB"
    ensures 0 < bytes < MiB ==> |s| > 3 && s[|s| - 3..] == " KB"
    ensures ParseSizeText(s) == Some(SizeLabelOf(bytes))
  {
    var l := SizeLabelOf(bytes);
    SizeTextRoundTrip(l);
    SizeText(l)
  }
}
