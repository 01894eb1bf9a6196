/**
 * `getMatchingFiles(data, accept, multiple)`: call `getAsFile()` on every
 * selected item and drop the `null` results. Calling it on the `undefined`
 * slot that the empty-accept, single-file case may produce throws a
 * `TypeError`, which is modelled as an error outcome.
 */
module FileResolver {
  import opened Wrappers
  import opened JsArrays
  import opened Host
  import opened MimeMatch
  import opened ItemFilter

  /** The exception `undefined.getAsFile()` raises. */
  datatype JsError = TypeError

  /** The non-null `getAsFile()` results of `items`, in order. */
  function FilesOf(items: seq<DataItem>): seq<File>
    decreases |items|
  {
    if items == [] then []
    else (if items[0].asFile.Some? then [items[0].asFile.value] else []) + FilesOf(items[1..])
  }

  /** `slots.map(item => item.getAsFile()).filter(Boolean)`. */
  function ResolveFiles(slots: seq<Option<DataItem>>): Result<seq<File>, JsError>
    decreases |slots|
  {
    if slots == [] then Ok([])
    else match slots[0]
      case None => Err(TypeError)
      case Some(item) =>
        match ResolveFiles(slots[1..])
        case Err(e) => Err(e)
        case Ok(rest) => Ok((if item.asFile.Some? then [item.asFile.value] else []) + rest)
  }

  function GetMatchingFiles(data: DataTransfer, accept: string, multiple: bool): Result<seq<File>, JsError>
  {
    ResolveFiles(GetMatchingDataItems(data.items, accept, multiple))
  }

  // ---------------------------------------------------------------------------
  // Resolving

  /** A file is delivered exactly when some item resolves to it. */
  lemma {:induction false} FilesOfMembers(items: seq<DataItem>, f: File)
    ensures f in FilesOf(items) <==> exists k :: 0 <= k < |items| && items[k].asFile == Some(f)
    decreases |items|
  {
    if items != [] {
      FilesOfMembers(items[1..], f);
      assert forall k :: 1 <= k < |items| ==> items[k] == items[1..][k - 1];
    }
  }

  lemma {:induction false} FilesOfLength(items: seq<DataItem>)
    ensures |FilesOf(items)| <= |items|
    ensures |FilesOf(items)| == |items| <==> forall k :: 0 <= k < |items| ==> items[k].asFile.Some?
    decreases |items|
  {
    if items != [] {
      FilesOfLength(items[1..]);
      assert forall k :: 1 <= k < |items| ==> items[k] == items[1..][k - 1];
    }
  }

  /** Resolution keeps the order of the items. */
  lemma {:induction false} FilesOfAppend(a: seq<DataItem>, b: seq<DataItem>)
    ensures FilesOf(a + b) == FilesOf(a) + FilesOf(b)
    decreases |a|
  {
    if a == [] {
      assert a + b == b;
    } else {
      assert (a + b)[1..] == a[1..] + b;
      FilesOfAppend(a[1..], b);
    }
  }

  /** Resolution fails exactly when some slot is `undefined`; otherwise it yields `FilesOf`. */
  lemma {:induction false} ResolveFilesIff(slots: seq<Option<DataItem>>)
    ensures ResolveFiles(slots).Err? <==> None in slots
    ensures forall s: seq<DataItem> :: slots == AllPresent(s) ==> ResolveFiles(slots) == Ok(FilesOf(s))
    decreases |slots|
  {
    if slots != [] {
      ResolveFilesIff(slots[1..]);
      assert slots == [slots[0]] + slots[1..];
      forall s: seq<DataItem> | slots == AllPresent(s) ensures ResolveFiles(slots) == Ok(FilesOf(s)) {
        assert slots[1..] == AllPresent(s[1..]);
      }
    }
  }

  // ---------------------------------------------------------------------------
  // The whole pipeline

  /**
   * The call throws exactly in the empty-accept, single-file case when no
   * item is of file kind; `multiple` or a non-empty accept never throws.
   */
  lemma ThrowsIff(data: DataTransfer, accept: string, multiple: bool)
    ensures GetMatchingFiles(data, accept, multiple).Err? <==>
              accept == "" && !multiple && forall k :: 0 <= k < |data.items| ==> data.items[k].kind != "file"
  {
    var slots := GetMatchingDataItems(data.items, accept, multiple);
    ResolveFilesIff(slots);
    FilterEmpty(data.items, IsFileKind);
    if accept != "" || multiple {
      var p := Admits(accept);
      MultipleSelectsAdmitted(data.items, accept);
      SingleSelectsFirst(data.items, accept);
      if None in slots {
        var k :| 0 <= k < |slots| && slots[k] == None;
        if accept != "" {
          NonEmptyAcceptSelectsMatching(data.items, accept, multiple, k);
        }
      }
    }
  }

  /** With `multiple`, the files of all admitted items, in input order. */
  lemma MultipleDeliversAllAdmitted(data: DataTransfer, accept: string)
    ensures GetMatchingFiles(data, accept, true) == Ok(FilesOf(Filter(data.items, Admits(accept))))
  {
    MultipleSelectsAdmitted(data.items, accept);
    ResolveFilesIff(GetMatchingDataItems(data.items, accept, true));
  }

  /** Without `multiple`, the file of the first admitted item, if it has one. */
  lemma SingleDeliversFirst(data: DataTransfer, accept: string)
    ensures var admitted := Filter(data.items, Admits(accept));
            GetMatchingFiles(data, accept, false) ==
              if admitted != [] then Ok(FilesOf([admitted[0]]))
              else if accept == "" then Err(TypeError)
              else Ok([])
  {
    var admitted := Filter(data.items, Admits(accept));
    var slots := GetMatchingDataItems(data.items, accept, false);
    FilterEmpty(data.items, Admits(accept));
    if admitted != [] {
      var i := FilterFirst(data.items, Admits(accept));
      SingleSelectsFirst(data.items, accept);
      assert slots == AllPresent([admitted[0]]);
      ResolveFilesIff(slots);
    }
  }

  /** A file resolved from some of the admitted items comes from an admitted input item. */
  lemma FileFromAdmitted(items: seq<DataItem>, p: DataItem -> bool, chosen: seq<DataItem>, f: File)
    requires forall j :: 0 <= j < |chosen| ==> chosen[j] in Filter(items, p)
    requires f in FilesOf(chosen)
    ensures exists k :: 0 <= k < |items| && p(items[k]) && items[k].asFile == Some(f)
  {
    FilesOfMembers(chosen, f);
    var j :| 0 <= j < |chosen| && chosen[j].asFile == Some(f);
    FilterMembers(items, p, chosen[j]);
    var k :| 0 <= k < |items| && items[k] == chosen[j];
  }

  /**
   * Every delivered file comes from an admitted item; there are never more
   * files than admitted items, and at most one without `multiple`.
   */
  lemma DeliveredFilesBounded(data: DataTransfer, accept: string, multiple: bool)
    requires GetMatchingFiles(data, accept, multiple).Ok?
    ensures var files := GetMatchingFiles(data, accept, multiple).value;
            |files| <= |Filter(data.items, Admits(accept))| <= |data.items| &&
            (!multiple ==> |files| <= 1) &&
            forall f :: f in files ==>
              exists k :: 0 <= k < |data.items| && Admits(accept)(data.items[k]) && data.items[k].asFile == Some(f)
  {
    var admitted := Filter(data.items, Admits(accept));
    var files := GetMatchingFiles(data, accept, multiple).value;
    var chosen := if multiple || admitted == [] then admitted else [admitted[0]];
    if multiple {
      MultipleDeliversAllAdmitted(data, accept);
    } else {
      SingleDeliversFirst(data, accept);
    }
    assert files == FilesOf(chosen);
    FilesOfLength(chosen);
    forall f | f in files
      ensures exists k :: 0 <= k < |data.items| && Admits(accept)(data.items[k]) && data.items[k].asFile == Some(f)
    {
      FileFromAdmitted(data.items, Admits(accept), chosen, f);
    }
  }

  /** No accept, no `multiple`, [pdf, jpg] dropped: only the pdf is delivered. */
  lemma FirstFileWins(pdf: DataItem, jpg: DataItem, f: File)
    requires pdf.kind == "file" && pdf.asFile == Some(f) && jpg.kind == "file"
    ensures GetMatchingFiles(DataTransfer([pdf, jpg]), "", false) == Ok([f])
  {
    var data := DataTransfer([pdf, jpg]);
    SingleDeliversFirst(data, "");
    assert Admits("") == IsFileKind;
    assert [pdf, jpg][1..] == [jpg];
    var admitted := Filter(data.items, IsFileKind);
    assert admitted == [pdf] + Filter([jpg], IsFileKind);
    assert admitted[0] == pdf;
    assert FilesOf([pdf]) == [f] + FilesOf([]);
    assert FilesOf([pdf]) == [f];
    assert Filter(data.items, Admits("")) == admitted;
    assert GetMatchingFiles(data, "", false) == Ok(FilesOf([admitted[0]]));
  }
}
