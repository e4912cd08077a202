/** The document page: a list of documents that grows by upload and whose
    entries are signed through a signature dialog. */
module DocumentChamber {
  import Text

  datatype Option<T> = None | Some(value: T)

  datatype DocStatus = Draft | InReview | Signed

  datatype Document = Document(
    id: int, name: string, kind: string, size: string, uploadedBy: string, status: DocStatus, url: Option<string>)

  /** A chosen file: its name and its size in bytes. */
  datatype FileInfo = FileInfo(name: string, size: nat)

  /** The list the page starts with. */
  const SeedDocuments: seq<Document> := [
    Document(1, "Investment Agreement.pdf", "Agreement", "2.4 MB", "John Doe", InReview, None),
    Document(2, "Partnership Contract.pdf", "Contract", "1.8 MB", "Jane Smith", Signed, None),
    Document(3, "Project Proposal.docx", "Proposal", "0.9 MB", "Robert Joh", Draft, None)
  ]

  /** Every document's id is its position plus one. */
  ghost predicate IdsArePositions(docs: seq<Document>)
  {
    forall i :: 0 <= i < |docs| ==> docs[i].id == i + 1
  }

  /** The type of an uploaded file: the last piece of its name cut at `.`,
      or `Document` when that piece is empty. It is never empty, holds no `.`,
      and is either `Document` or a tail of the name. */
  function Extension(name: string): (ext: string)
    ensures ext != [] && '.' !in ext
    ensures ext == "Document" || (|ext| <= |name| && name[|name| - |ext|..] == ext)
  {
    assert "." == ['.'];
    Text.LastPieceAfterLastSeparator(name, '.');
    var last := Text.Last(Text.Split(name, "."));
    if last == "" then "Document" else last
  }

  /** The type of an uploaded file is the text after the last `.` of its name,
      the whole name when it has no `.`, and `Document` when that text is empty. */
  lemma ExtensionIsTextAfterLastDot(name: string)
    ensures '.' !in name ==> Extension(name) == if name == "" then "Document" else name
    ensures forall k :: 0 <= k < |name| && name[k] == '.' && '.' !in name[k + 1..] ==>
              Extension(name) == if k + 1 == |name| then "Document" else name[k + 1..]
  {
    Text.LastPieceAfterLastSeparator(name, '.');
    var parts := Text.Split(name, ['.']);
    var t := Text.Last(parts);
    assert "." == ['.'];
    forall k | 0 <= k < |name| && name[k] == '.' && '.' !in name[k + 1..]
      ensures Extension(name) == if k + 1 == |name| then "Document" else name[k + 1..]
    {
      assert name[k] in name;
      var j := |name| - |t| - 1;
      assert name[j] == '.';
      assert name[k + 1..] == t;
    }
  }

  /** The list after `signDocument` with the selected document's id (or none):
      documents carrying that id become `Signed`, the others are kept. */
  function SignSelected(docs: seq<Document>, selected: Option<int>): (r: seq<Document>)
    ensures |r| == |docs|
    ensures forall k :: 0 <= k < |r| ==>
              r[k] == if selected == Some(docs[k].id) then docs[k].(status := Signed) else docs[k]
    decreases |docs|
  {
    if docs == [] then []
    else
      var head := if selected == Some(docs[0].id) then docs[0].(status := Signed) else docs[0];
      [head] + SignSelected(docs[1..], selected)
  }

  /** Signing changes no id, never moves a document out of `Signed`, and
      signing again changes nothing more. */
  lemma SigningIsMonotoneAndIdempotent(docs: seq<Document>, selected: Option<int>)
    ensures var r := SignSelected(docs, selected);
            (forall k :: 0 <= k < |r| ==> r[k].id == docs[k].id) &&
            (forall k :: 0 <= k < |r| && docs[k].status == Signed ==> r[k].status == Signed) &&
            SignSelected(r, selected) == r
  {
  }

  /** With no document selected, signing changes nothing. */
  lemma SignWithoutSelection(docs: seq<Document>)
    ensures SignSelected(docs, None) == docs
  {
  }

  /** The page state: the documents, the selected document and whether the
      signature dialog is shown. */
  class Chamber {
    var documents: seq<Document>
    var selected: Option<Document>
    var showSignature: bool

    ghost predicate Valid()
      reads this
    {
      IdsArePositions(documents)
    }

    constructor ()
      ensures Valid()
      ensures documents == SeedDocuments && selected == None && !showSignature
    {
      documents := SeedDocuments;
      selected := None;
      showSignature := false;
    }

    /** `handleUpload` with the input's chosen files; `formatSize` gives the
        size text before the ` MB` suffix and `objectUrl` the preview URL. */
    method Upload(files: seq<FileInfo>, formatSize: nat -> string, objectUrl: string)
      requires Valid()
      modifies this
      ensures Valid()
      ensures files == [] ==> documents == old(documents)
      ensures files != [] ==>
                documents == old(documents) +
                  [Document(|old(documents)| + 1, files[0].name, Extension(files[0].name),
                            formatSize(files[0].size) + " MB", "You", Draft, Some(objectUrl))]
      ensures forall i, j :: 0 <= i < j < |documents| ==> documents[i].id != documents[j].id
      ensures selected == old(selected) && showSignature == old(showSignature)
    {
      if |files| == 0 {
        return;
      }
      var file := files[0];
      var newDoc := Document(|documents| + 1, file.name, Extension(file.name),
                             formatSize(file.size) + " MB", "You", Draft, Some(objectUrl));
      documents := documents + [newDoc];
    }

    /** The View button of a listed document. */
    method View(doc: Document)
      requires doc in documents
      modifies this
      ensures selected == Some(doc)
      ensures documents == old(documents) && showSignature == old(showSignature)
    {
      selected := Some(doc);
    }

    /** The Sign button, offered only for a listed document that is not signed. */
    method OpenSignature(doc: Document)
      requires doc in documents && doc.status != Signed
      modifies this
      ensures selected == Some(doc) && showSignature
      ensures documents == old(documents)
    {
      selected := Some(doc);
      showSignature := true;
    }

    /** The dialog's Cancel button. */
    method CancelSignature()
      modifies this
      ensures !showSignature
      ensures documents == old(documents) && selected == old(selected)
    {
      showSignature := false;
    }

    /** `signDocument`: the selected document (matched by id) becomes `Signed`
        and the dialog closes. */
    method SignDocument()
      requires Valid()
      modifies this
      ensures Valid()
      ensures documents == SignSelected(old(documents), if old(selected).Some? then Some(old(selected).value.id) else None)
      ensures forall k :: 0 <= k < |documents| && old(documents)[k].status == Signed ==> documents[k].status == Signed
      ensures !showSignature && selected == old(selected)
    {
      var id := if selected.Some? then Some(selected.value.id) else None;
      SigningIsMonotoneAndIdempotent(documents, id);
      documents := SignSelected(documents, id);
      showSignature := false;
    }
  }
}
