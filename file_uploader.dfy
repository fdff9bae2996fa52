/**
 * The drop zone and file picker (src/components/FileUploader.tsx): the drag-highlight
 * flag and the list of files chosen so far.
 */
module FileUploader {
  import opened Text
  import opened Seqs
  import opened StudentTypes

  /** The drag events the drop zone listens to; `Other` stands for any other event type. */
  datatype DragKind = DragEnter | DragOver | DragLeave | Other

  /** The files a drop contributes: the `.csv` ones in multiple mode, else the first file. */
  function DroppedFiles(multiple: bool, dropped: seq<UploadedFile>): (files: seq<UploadedFile>)
    requires |dropped| > 0
    ensures multiple ==>
      && (forall k :: 0 <= k < |files| ==> files[k] in dropped && EndsWith(files[k].name, ".csv"))
      && (forall k :: 0 <= k < |dropped| && EndsWith(dropped[k].name, ".csv") ==> dropped[k] in files)
    ensures multiple ==> forall x: UploadedFile ::
      multiset(files)[x] == if EndsWith(x.name, ".csv") then multiset(dropped)[x] else 0
    ensures !multiple ==> files == [dropped[0]]
  {
    FilterMultiset(dropped, (f: UploadedFile) => EndsWith(f.name, ".csv"));
    if multiple then Filter(dropped, (f: UploadedFile) => EndsWith(f.name, ".csv")) else [dropped[0]]
  }

  /** In multiple mode a drop is filtered piecewise, so the kept files stay in drop order. */
  lemma DroppedConcat(a: seq<UploadedFile>, b: seq<UploadedFile>)
    requires |a| > 0 && |b| > 0
    ensures DroppedFiles(true, a + b) == DroppedFiles(true, a) + DroppedFiles(true, b)
  {
    FilterConcat(a, b, (f: UploadedFile) => EndsWith(f.name, ".csv"));
  }

  /** The files a picker change contributes: all of them, unfiltered, or the first one. */
  function PickedFiles(multiple: bool, picked: seq<UploadedFile>): (files: seq<UploadedFile>)
    requires |picked| > 0
    ensures multiple ==> files == picked
    ensures !multiple ==> files == [picked[0]]
  {
    if multiple then picked else [picked[0]]
  }

  /** `list.filter((_, i) => i !== index)` over the positions from `from` on. */
  function WithoutFrom(list: seq<UploadedFile>, index: int, from: nat): seq<UploadedFile>
    requires from <= |list|
    decreases |list| - from
  {
    if from == |list| then []
    else (if from != index then [list[from]] else []) + WithoutFrom(list, index, from + 1)
  }

  function Without(list: seq<UploadedFile>, index: int): seq<UploadedFile> {
    WithoutFrom(list, index, 0)
  }

  lemma {:induction false} WithoutFromSpec(list: seq<UploadedFile>, index: int, from: nat)
    requires from <= |list|
    ensures WithoutFrom(list, index, from)
      == if from <= index < |list| then list[from..index] + list[index + 1..] else list[from..]
    decreases |list| - from
  {
    if from < |list| {
      WithoutFromSpec(list, index, from + 1);
      assert list[from..] == [list[from]] + list[from + 1..];
      if from < index < |list| {
        assert list[from..index] == [list[from]] + list[from + 1..index];
      }
    }
  }

  /**
   * `removeFile(index)` drops exactly the element at `index` and keeps the rest in
   * order; an index outside the list changes nothing.
   */
  lemma WithoutSpec(list: seq<UploadedFile>, index: int)
    ensures 0 <= index < |list| ==> Without(list, index) == list[..index] + list[index + 1..]
    ensures !(0 <= index < |list|) ==> Without(list, index) == list
  {
    WithoutFromSpec(list, index, 0);
    assert list[0..] == list;
  }

  /** The state of a `FileUploader`; `multiple` is the prop of the same name. */
  class Uploader {
    const multiple: bool
    var dragActive: bool
    var selectedFiles: seq<UploadedFile>

    constructor(multiple: bool)
      ensures this.multiple == multiple && !dragActive && selectedFiles == []
    {
      this.multiple := multiple;
      dragActive := false;
      selectedFiles := [];
    }

    /** `handleDrag`. */
    method HandleDrag(kind: DragKind)
      modifies this
      ensures kind == DragEnter || kind == DragOver ==> dragActive
      ensures kind == DragLeave ==> !dragActive
      ensures kind == Other ==> dragActive == old(dragActive)
      ensures selectedFiles == old(selectedFiles)
    {
      if kind == DragEnter || kind == DragOver {
        dragActive := true;
      } else if kind == DragLeave {
        dragActive := false;
      }
    }

    /** `handleDrop`: returns the list passed to `onFilesSelected`, when it is called. */
    method HandleDrop(dropped: seq<UploadedFile>) returns (passed: Option<seq<UploadedFile>>)
      modifies this
      ensures !dragActive
      ensures dropped == [] ==> selectedFiles == old(selectedFiles) && passed == None
      ensures dropped != [] ==>
        && passed == Some(DroppedFiles(multiple, dropped))
        && selectedFiles == old(selectedFiles) + DroppedFiles(multiple, dropped)
    {
      dragActive := false;
      if |dropped| > 0 {
        var files := DroppedFiles(multiple, dropped);
        selectedFiles := selectedFiles + files;
        return Some(files);
      }
      return None;
    }

    /** `handleChange` of the hidden file input. */
    method HandleChange(picked: seq<UploadedFile>) returns (passed: Option<seq<UploadedFile>>)
      modifies this
      ensures dragActive == old(dragActive)
      ensures picked == [] ==> selectedFiles == old(selectedFiles) && passed == None
      ensures picked != [] ==>
        && passed == Some(PickedFiles(multiple, picked))
        && selectedFiles == old(selectedFiles) + PickedFiles(multiple, picked)
    {
      if |picked| > 0 {
        var files := PickedFiles(multiple, picked);
        selectedFiles := selectedFiles + files;
        return Some(files);
      }
      return None;
    }

    /** `removeFile`. */
    method RemoveFile(index: int)
      modifies this
      ensures selectedFiles == Without(old(selectedFiles), index)
      ensures dragActive == old(dragActive)
    {
      selectedFiles := Without(selectedFiles, index);
    }
  }
}
