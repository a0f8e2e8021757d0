/**
 * The photo-selection rules of the contact form: which picked or dropped
 * files are admitted (an image type or a `.heic` name, and at most 5 MiB),
 * the status each rejection reports, the batch capacity of three photos,
 * and the removal of one selected photo by the index its tile carries.
 */
module Uploads {
  import opened Wrappers
  import opened Text
  import opened Feedback

  const MaxFiles: nat := 3
  const MaxFileSize: nat := 5 * 1024 * 1024

  /** What the page reads of a browser `File`: its name, MIME type and size in bytes. */
  datatype FileInfo = FileInfo(name: string, mime: string, size: nat)

  predicate StartsWith(s: string, prefix: string) {
    |prefix| <= |s| && s[..|prefix|] == prefix
  }

  predicate EndsWith(s: string, suffix: string) {
    |suffix| <= |s| && s[|s| - |suffix|..] == suffix
  }

  function LowerChar(c: char): char {
    if 'A' <= c <= 'Z' then (c as int + 32) as char else c
  }

  /** `toLowerCase` on the letters A to Z; every other character is kept. */
  function LowerAscii(s: string): (r: string)
    ensures |r| == |s|
    ensures forall k :: 0 <= k < |s| ==> r[k] == LowerChar(s[k])
  {
    if s == [] then [] else [LowerChar(s[0])] + LowerAscii(s[1..])
  }

  /** The type test of the filter: an `image/` MIME type, or a name ending in `.heic` in any case. */
  predicate IsImage(f: FileInfo) {
    StartsWith(f.mime, "image/") || EndsWith(LowerAscii(f.name), ".heic")
  }

  datatype Verdict = Admissible | NotAnImage | TooLarge

  /** The filter's verdict on one file; the type test is made before the size test. */
  function Screen(f: FileInfo): (v: Verdict)
    ensures v == Admissible <==> IsImage(f) && f.size <= MaxFileSize
    ensures v == NotAnImage <==> !IsImage(f)
    ensures v == TooLarge <==> IsImage(f) && f.size > MaxFileSize
  {
    if !IsImage(f) then NotAnImage
    else if f.size > MaxFileSize then TooLarge
    else Admissible
  }

  /** The status a rejected file reports, naming the file and the reason. */
  function RejectionStatus(f: FileInfo, v: Verdict): (st: Status)
    requires v != Admissible
    ensures st.tone == ErrorTone && |st.text| > |f.name| && st.text[..|f.name|] == f.name
  {
    if v == NotAnImage then Status(f.name + " is not a valid image file.", ErrorTone)
    else Status(f.name + " exceeds 5MB limit.", ErrorTone)
  }

  /** The status of a batch that would take the selection past its capacity. */
  function CapacityStatus(): (st: Status)
    ensures st == Status("You can only upload up to 3 photos.", ErrorTone)
  {
    Status("You can only upload up to " + Decimal(MaxFiles) + " photos.", ErrorTone)
  }

  /** The files of a batch that pass the filter, in the order given. */
  function ValidFiles(files: seq<FileInfo>): (r: seq<FileInfo>)
    ensures |r| <= |files|
  {
    if files == [] then []
    else
      var init := files[..|files| - 1];
      var last := files[|files| - 1];
      assert files == init + [last];
      ValidFiles(init) + (if Screen(last) == Admissible then [last] else [])
  }

  /** The filter keeps exactly the files the screen admits, and nothing it refuses. */
  lemma {:induction false} ValidFilesAdmitsExactly(files: seq<FileInfo>)
    ensures forall k :: 0 <= k < |ValidFiles(files)| ==> Screen(ValidFiles(files)[k]) == Admissible
    ensures forall f :: f in ValidFiles(files) <==> f in files && Screen(f) == Admissible
  {
    if files != [] {
      var init := files[..|files| - 1];
      var last := files[|files| - 1];
      assert files == init + [last];
      ValidFilesAdmitsExactly(init);
    }
  }

  /** Filtering a concatenation filters each part: the admitted files keep their relative order. */
  lemma {:induction false} ValidFilesConcat(a: seq<FileInfo>, b: seq<FileInfo>)
    ensures ValidFiles(a + b) == ValidFiles(a) + ValidFiles(b)
  {
    if b == [] {
      assert a + b == a;
    } else {
      var init := b[..|b| - 1];
      assert (a + b)[..|a + b| - 1] == a + init;
      assert (a + b)[|a + b| - 1] == b[|b| - 1];
      ValidFilesConcat(a, init);
    }
  }

  /** A batch of acceptable files is admitted whole. */
  lemma {:induction false} ValidFilesAllAccepted(files: seq<FileInfo>)
    requires forall k :: 0 <= k < |files| ==> Screen(files[k]) == Admissible
    ensures ValidFiles(files) == files
  {
    if files != [] {
      ValidFilesAllAccepted(files[..|files| - 1]);
    }
  }

  /**
   * The status left by the filter: every rejection overwrites the previous
   * one, so it is that of the last rejected file, if any.
   */
  function LastRejection(files: seq<FileInfo>): (r: Option<Status>)
    ensures r.Some? ==> r.value.tone == ErrorTone
  {
    if files == [] then None
    else
      var last := files[|files| - 1];
      if Screen(last) != Admissible then Some(RejectionStatus(last, Screen(last)))
      else LastRejection(files[..|files| - 1])
  }

  /** The filter leaves no status exactly when it refuses no file. */
  lemma {:induction false} LastRejectionNone(files: seq<FileInfo>)
    ensures LastRejection(files).None? <==> forall k :: 0 <= k < |files| ==> Screen(files[k]) == Admissible
  {
    if files != [] {
      var init := files[..|files| - 1];
      LastRejectionNone(init);
      assert forall k :: 0 <= k < |init| ==> init[k] == files[k];
    }
  }

  /** When some file is rejected, the status left is that of the last rejected one. */
  lemma {:induction false} LastRejectionIsLast(files: seq<FileInfo>, k: nat)
    requires k < |files| && Screen(files[k]) != Admissible
    requires forall m :: k < m < |files| ==> Screen(files[m]) == Admissible
    ensures LastRejection(files) == Some(RejectionStatus(files[k], Screen(files[k])))
  {
    if k < |files| - 1 {
      var init := files[..|files| - 1];
      assert init[k] == files[k];
      assert forall m :: k < m < |init| ==> init[m] == files[m];
      LastRejectionIsLast(init, k);
    }
  }

  /** A 6 MiB `photo.png` is rejected, as too large when its type is an image type. */
  lemma OversizeExample(mime: string)
    ensures Screen(FileInfo("photo.png", mime, 6 * 1024 * 1024)) != Admissible
    ensures StartsWith(mime, "image/") ==> Screen(FileInfo("photo.png", mime, 6 * 1024 * 1024)) == TooLarge
  {
  }

  /** `doc.pdf` is no image, whatever its size. */
  lemma PdfExample(size: nat)
    ensures Screen(FileInfo("doc.pdf", "application/pdf", size)) == NotAnImage
  {
    var lower := LowerAscii("doc.pdf");
    assert lower[6] == LowerChar('f') == 'f';
    assert !StartsWith("application/pdf", "image/") by {
      assert "application/pdf"[0] != 'i';
    }
  }

  /** A 1 MiB `a.heic` passes even without an image type, and so does `A.HEIC`. */
  lemma HeicExample(mime: string)
    ensures Screen(FileInfo("a.heic", mime, 1024 * 1024)) == Admissible
    ensures Screen(FileInfo("A.HEIC", mime, 1024 * 1024)) == Admissible
  {
    var lower := LowerAscii("A.HEIC");
    assert lower[1] == '.' && lower[2] == 'h' && lower[3] == 'e' && lower[4] == 'i' && lower[5] == 'c';
    assert lower[1..] == ".heic";
    var same := LowerAscii("a.heic");
    assert same[1] == '.' && same[2] == 'h' && same[3] == 'e' && same[4] == 'i' && same[5] == 'c';
    assert same[1..] == ".heic";
  }

  /** The position `splice(index, 1)` starts at: negative indices count from the end. */
  function SpliceStart(len: nat, index: int): (k: nat)
    ensures k <= len
    ensures 0 <= index <= len ==> k == index
    ensures index < 0 && len + index >= 0 ==> k == len + index
    ensures len + index < 0 ==> k == 0
    ensures index > len ==> k == len
  {
    if index < 0 then (if len + index < 0 then 0 else len + index)
    else if index > len then len
    else index
  }

  /** `s.splice(index, 1)` on the selection: the entry at the start position goes, if there is one. */
  function RemoveAt<T>(s: seq<T>, index: int): (r: seq<T>)
    ensures |r| <= |s|
    ensures multiset(r) <= multiset(s)
  {
    var k := SpliceStart(|s|, index);
    if k < |s| then
      assert s == s[..k] + [s[k]] + s[k + 1..];
      s[..k] + s[k + 1..]
    else s
  }

  /**
   * Removing at an index in range drops exactly that entry: one fewer, the
   * rest in their relative order, and nothing else lost.
   */
  lemma RemoveAtInRange<T>(s: seq<T>, i: nat)
    requires i < |s|
    ensures |RemoveAt(s, i)| == |s| - 1
    ensures forall k :: 0 <= k < i ==> RemoveAt(s, i)[k] == s[k]
    ensures forall k :: i <= k < |s| - 1 ==> RemoveAt(s, i)[k] == s[k + 1]
    ensures multiset(RemoveAt(s, i)) + multiset{s[i]} == multiset(s)
  {
    assert s == s[..i] + [s[i]] + s[i + 1..];
  }

  /** A negative index counts back from the end of the selection. */
  lemma RemoveAtFromEnd<T>(s: seq<T>, index: int)
    requires -|s| <= index < 0
    ensures RemoveAt(s, index) == RemoveAt(s, |s| + index)
    ensures |RemoveAt(s, index)| == |s| - 1
  {
  }

  /** An index past the end removes nothing. */
  lemma RemoveAtPastEnd<T>(s: seq<T>, index: int)
    requires index >= |s|
    ensures RemoveAt(s, index) == s
  {
  }

  /** A removal never lengthens the selection, so it keeps the capacity bound. */
  lemma RemoveAtShrinks<T>(s: seq<T>, index: int)
    ensures |RemoveAt(s, index)| <= |s|
    ensures |RemoveAt(s, index)| == |s| - 1 <==> s != [] && index < |s|
  {
  }
}
