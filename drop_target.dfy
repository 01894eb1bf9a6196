/**
 * The `FileDrop` component's event handlers. The `dragEnterCount` ref is a
 * field the handlers update in place; the callbacks the component invokes
 * are recorded, in order, in `calls`. Optional callbacks are the flags
 * `hasOnEnter` and `hasOnLeave`; `onFileDrop` is always supplied.
 */
module DropTarget {
  import opened Wrappers
  import opened JsArrays
  import opened JsStrings
  import opened Host
  import opened MimeMatch
  import opened ItemFilter
  import opened FileResolver

  /** One invocation of a user callback. */
  datatype Callback = OnEnter(canDrop: bool) | OnLeave | OnFileDrop(files: seq<File>)

  /**
   * The argument `onEnter` receives: `false` for a null `dataTransfer`;
   * `true` when the transfer lists no items; otherwise whether the first
   * selected item is defined.
   */
  function CanDrop(transfer: Option<DataTransfer>, accept: string, multiple: bool): bool
  {
    match transfer
    case None => false
    case Some(dt) =>
      var items := GetMatchingDataItems(dt.items, accept, multiple);
      if |dt.items| > 0 then |items| > 0 && items[0].Some? else true
  }

  /**
   * For a transfer with items, `onEnter` reports whether some item is
   * admitted by the accept string; the `multiple` flag plays no part.
   */
  lemma CanDropIff(dt: DataTransfer, accept: string, multiple: bool)
    requires |dt.items| > 0
    ensures CanDrop(Some(dt), accept, multiple) <==>
              exists k :: 0 <= k < |dt.items| && Admits(accept)(dt.items[k])
  {
    var p := Admits(accept);
    FilterEmpty(dt.items, p);
    if multiple {
      MultipleSelectsAdmitted(dt.items, accept);
    } else {
      SingleSelectsFirst(dt.items, accept);
    }
  }

  /**
   * A drop of items that `onEnter` reported droppable never throws. The
   * requirement of at least one item is needed: see `EmptyTransferDroppable`.
   */
  lemma CanDropMeansDropSucceeds(dt: DataTransfer, accept: string, multiple: bool)
    requires |dt.items| > 0 && CanDrop(Some(dt), accept, multiple)
    ensures GetMatchingFiles(dt, accept, multiple).Ok?
  {
    CanDropIff(dt, accept, multiple);
    ThrowsIff(dt, accept, multiple);
    if accept == "" && !multiple {
      var k :| 0 <= k < |dt.items| && Admits(accept)(dt.items[k]);
      assert dt.items[k].kind == "file";
    }
  }

  /**
   * The fallback for hosts that list no items during a drag: `onEnter` is
   * told true whatever the props, yet with the default props the drop itself
   * throws, so `CanDropMeansDropSucceeds` cannot drop its requirement.
   */
  lemma EmptyTransferDroppable(accept: string, multiple: bool)
    ensures CanDrop(Some(DataTransfer([])), accept, multiple)
    ensures GetMatchingFiles(DataTransfer([]), accept, multiple).Err? <==> accept == "" && !multiple
  {
    ThrowsIff(DataTransfer([]), accept, multiple);
  }

  /**
   * The accept string `*` has no `/`, so parsing drops it and it admits
   * nothing: `onEnter` is told false for every transfer with items, whatever
   * `multiple` is, directories included.
   */
  lemma StarAcceptRejectsEverything(dt: DataTransfer, multiple: bool)
    requires |dt.items| > 0
    ensures ParseAccepts("*") == []
    ensures !CanDrop(Some(dt), "*", multiple)
  {
    assert ToLower("*") == "*";
    SplitNoSeparator("*", ',');
    SplitNoSeparator("*", '/');
    assert ParseEntry("*") == [];
    assert ParseEntries(["*"]) == ParseEntry("*") + ParseEntries([]);
    MalformedAcceptSelectsNothing(dt.items, "*", multiple);
  }

  /**
   * Without an accept string every file-kind item is droppable; a directory
   * is listed as a file-kind item, so `onEnter` is told true for it.
   */
  lemma NoAcceptAdmitsFileKind(dt: DataTransfer, multiple: bool, k: nat)
    requires k < |dt.items| && dt.items[k].kind == "file"
    ensures CanDrop(Some(dt), "", multiple)
  {
    CanDropIff(dt, "", multiple);
  }

  class FileDrop {
    const accept: string
    const multiple: bool
    const hasOnEnter: bool
    const hasOnLeave: bool
    var dragEnterCount: int
    var calls: seq<Callback>

    /** Mounting: `accept` defaults to `""` and `multiple` to `false`; the ref starts at 0. */
    constructor (accept: Option<string>, multiple: Option<bool>, hasOnEnter: bool, hasOnLeave: bool)
      ensures this.accept == (if accept.Some? then accept.value else "")
      ensures this.multiple == (multiple.Some? && multiple.value)
      ensures this.hasOnEnter == hasOnEnter && this.hasOnLeave == hasOnLeave
      ensures dragEnterCount == 0 && calls == []
    {
      this.accept := if accept.Some? then accept.value else "";
      this.multiple := multiple.Some? && multiple.value;
      this.hasOnEnter := hasOnEnter;
      this.hasOnLeave := hasOnLeave;
      dragEnterCount := 0;
      calls := [];
    }

    /** `dragover`: only the default action is suppressed (the result); nothing else changes. */
    method OnDragOver() returns (defaultPrevented: bool)
      ensures defaultPrevented
    {
      defaultPrevented := true;
    }

    /**
     * `dragenter`: the counter always goes up by one; `onEnter` fires, with
     * `CanDrop`, only if supplied and the new count is at most 1.
     */
    method OnDragEnter(transfer: Option<DataTransfer>)
      modifies this
      ensures dragEnterCount == old(dragEnterCount) + 1
      ensures calls == old(calls) +
                (if hasOnEnter && dragEnterCount <= 1 then [OnEnter(CanDrop(transfer, accept, multiple))] else [])
    {
      dragEnterCount := dragEnterCount + 1;
      if !hasOnEnter || dragEnterCount > 1 {
        return;
      }
      if transfer.None? {
        calls := calls + [OnEnter(false)];
        return;
      }
      var items := GetMatchingDataItems(transfer.value.items, accept, multiple);
      var validDrop := if |transfer.value.items| > 0 then |items| > 0 && items[0].Some? else true;
      calls := calls + [OnEnter(validDrop)];
    }

    /** `dragleave`: the counter goes down by one, with no lower bound; `onLeave` fires if supplied. */
    method OnDragLeave()
      modifies this
      ensures dragEnterCount == old(dragEnterCount) - 1
      ensures calls == old(calls) + (if hasOnLeave then [OnLeave] else [])
    {
      dragEnterCount := dragEnterCount - 1;
      if hasOnLeave {
        calls := calls + [OnLeave];
      }
    }

    /**
     * `drop`: the default action is suppressed first. A null transfer changes
     * nothing. Otherwise the counter is reset to 0 and, unless resolving the
     * files throws, `onFileDrop` fires with them if there is at least one.
     */
    method OnDrop(transfer: Option<DataTransfer>) returns (defaultPrevented: bool, threw: bool)
      modifies this
      ensures defaultPrevented
      ensures transfer.None? ==>
                !threw && dragEnterCount == old(dragEnterCount) && calls == old(calls)
      ensures transfer.Some? ==>
                dragEnterCount == 0 &&
                match GetMatchingFiles(transfer.value, accept, multiple)
                case Err(_) => threw && calls == old(calls)
                case Ok(files) =>
                  !threw && calls == old(calls) + (if |files| > 0 then [OnFileDrop(files)] else [])
    {
      defaultPrevented := true;
      threw := false;
      if transfer.None? {
        return;
      }
      dragEnterCount := 0;
      var result := GetMatchingFiles(transfer.value, accept, multiple);
      if result.Err? {
        threw := true;
        return;
      }
      var files := result.value;
      if |files| > 0 {
        calls := calls + [OnFileDrop(files)];
      }
    }

    /** `dragend`: the counter is reset to 0 and no callback fires. */
    method OnDragEnd()
      modifies this
      ensures dragEnterCount == 0 && calls == old(calls)
    {
      dragEnterCount := 0;
    }
  }

  // ---------------------------------------------------------------------------
  // Event sequences

  /** An enter followed by a leave fires `onEnter` once and `onLeave` once, and no drop. */
  method EnterThenLeave(dt: DataTransfer) returns (calls: seq<Callback>, count: int)
    ensures calls == [OnEnter(CanDrop(Some(dt), "", false)), OnLeave] && count == 0
  {
    var target := new FileDrop(None, None, true, true);
    target.OnDragEnter(Some(dt));
    target.OnDragLeave();
    calls, count := target.calls, target.dragEnterCount;
  }

  /** A second, nested enter without a leave does not fire `onEnter` again. */
  method NestedEnterFiresOnce(dt: DataTransfer, accept: string) returns (calls: seq<Callback>, count: int)
    ensures calls == [OnEnter(CanDrop(Some(dt), accept, false))] && count == 2
  {
    var target := new FileDrop(Some(accept), None, true, false);
    target.OnDragEnter(Some(dt));
    target.OnDragEnter(Some(dt));
    calls, count := target.calls, target.dragEnterCount;
  }

  /**
   * A leave before any enter drives the counter to -1 and fires `onLeave`;
   * the enter that follows brings it back to 0 and so does fire `onEnter`.
   */
  method LeaveThenEnter(dt: DataTransfer) returns (calls: seq<Callback>, count: int)
    ensures calls == [OnLeave, OnEnter(CanDrop(Some(dt), "", false))] && count == 0
  {
    var target := new FileDrop(None, None, true, true);
    target.OnDragLeave();
    assert target.dragEnterCount == -1;
    target.OnDragEnter(Some(dt));
    calls, count := target.calls, target.dragEnterCount;
  }

  /** A null transfer on enter reports `false`. */
  method EnterWithoutTransfer() returns (calls: seq<Callback>)
    ensures calls == [OnEnter(false)]
  {
    var target := new FileDrop(None, None, true, false);
    target.OnDragEnter(None);
    calls := target.calls;
  }

  /** A drop with a null transfer fires nothing, does not throw and keeps the counter. */
  method DropWithoutTransfer(multiple: bool) returns (calls: seq<Callback>, threw: bool, count: int)
    ensures calls == [] && !threw && count == 1
  {
    var target := new FileDrop(None, Some(multiple), false, true);
    target.OnDragEnter(Some(DataTransfer([])));
    var _, t := target.OnDrop(None);
    calls, threw, count := target.calls, t, target.dragEnterCount;
  }

  /** A drop that admits nothing fires nothing; a dragend after it fires nothing either. */
  method DropWithoutMatch(pdf: DataItem) returns (calls: seq<Callback>, count: int)
    requires pdf.kind == "file" && pdf.mimeType == "application/pdf"
    ensures calls == [] && count == 0
  {
    var target := new FileDrop(Some("image/*"), None, false, false);
    PdfIsNotAnImage(pdf);
    ParseImageWildcard();
    SingleDeliversFirst(DataTransfer([pdf]), "image/*");
    assert [pdf][1..] == [];
    assert Filter([pdf], Admits("image/*")) == [];
    var _, _ := target.OnDrop(Some(DataTransfer([pdf])));
    target.OnDragEnd();
    calls, count := target.calls, target.dragEnterCount;
  }

  /** A dropped file is delivered once; the dragend that follows delivers nothing more. */
  method DropThenDragEnd(pdf: DataItem, f: File) returns (calls: seq<Callback>)
    requires pdf.kind == "file" && pdf.asFile == Some(f)
    ensures calls == [OnFileDrop([f])]
  {
    var target := new FileDrop(None, None, false, false);
    SingleDeliversFirst(DataTransfer([pdf]), "");
    assert Admits("") == IsFileKind;
    assert [pdf][1..] == [];
    assert Filter([pdf], IsFileKind) == [pdf];
    assert FilesOf([pdf]) == [f];
    var _, _ := target.OnDrop(Some(DataTransfer([pdf])));
    target.OnDragEnd();
    calls := target.calls;
  }
}
